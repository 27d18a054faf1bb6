/**
 The walk with which lib/Analysis/LazyCallGraph.cpp repairs a component that lost an edge, over plain
 values: what holds all along it and what each step keeps.  `Repair` is the setting, fixed when the walk
 starts; `Repairing` joins the invariant of the walk itself, that of TarjanWalk on the nodes not yet placed,
 with `Repaired`, which says what has been achieved: where the nodes are, which SCCs are new and in which
 order, and which links have been taken away for the time being.
 */
module SCCRepair {
  import opened Digraph
  import opened EdgeRemoval
  import opened SCCTables
  import opened TarjanWalk

  /**
   The members `comp` of SCC `c` are being distributed over `c` and new SCCs.  `g` is the graph without
   the removed edge, `callee` the node that edge led to, and `below` what `comp` leads to.  The rest is
   the state before: the SCC map, the numbers of the nodes, the SCCs, the parent sets and the leaves.
   */
  datatype Repair = Repair(g: Graph, c: SCC, callee: Node, comp: set<Node>, below: set<Node>, before: Tables,
                           was: map<SCC, set<SCC>>, leaves: seq<SCC>)

  ghost predicate Setting(x: Repair) {
    && Closed(x.g, x.below) && Closed(x.g, x.comp + x.below) && x.comp !! x.below
    && x.comp + x.below <= x.before.sccMap.Keys
    && x.callee in x.comp && x.comp == Members(x.before.sccMap, x.c)
    && Sound(x.g, x.before) && x.was.Keys == x.before.nodes.Keys && NoRepeats(x.leaves)
    && (forall y, d :: y in x.was && d in x.was[y] ==> d in x.was)
    && (forall y :: y in x.leaves ==> y in x.was) && x.c in x.was
  }

  /** The nodes of the new SCCs. */
  ghost function Split(m: map<Node, SCC>, results: seq<SCC>): set<Node> {
    set v | v in m && m[v] in results
  }

  ghost function RepairArea(x: Repair, m: map<Node, SCC>, results: seq<SCC>): Area {
    Area(x.g, x.comp + x.below, x.below + Split(m, results))
  }

  /** Every node is where it was, or not placed yet, or in a new SCC, or in `c` because it reaches the callee. */
  ghost predicate Distributed(x: Repair, m: map<Node, SCC>, results: seq<SCC>) {
    && x.before.sccMap.Keys - x.comp <= m.Keys <= x.before.sccMap.Keys
    && (forall v :: v in x.before.sccMap && v !in x.comp ==> m[v] == x.before.sccMap[v])
    && (forall v :: v in x.comp && v in m ==> m[v] == x.c || m[v] in results)
    && (forall v :: v in m && m[v] == x.c ==> Reach(x.g, v, x.callee))
    && x.callee in m && m[x.callee] == x.c
  }

  /** The numbers of the other nodes are what they were. */
  ghost predicate OthersNumbered(x: Repair, t: Tables)
    requires Sound(x.g, t) && Sound(x.g, x.before)
  {
    forall v :: v in x.g && v !in x.comp ==> t.num[v] == x.before.num[v] && t.low[v] == x.before.low[v]
  }

  /** The new SCCs, in post-order. */
  ghost predicate Results(x: Repair, m: map<Node, SCC>, sccs: set<SCC>, results: seq<SCC>) {
    && (forall d :: d in sccs <==> d in x.before.nodes || d in results)
    && (forall r :: r in results ==> r !in x.before.nodes && IsSCC(x.g, Members(m, r)))
    && (forall j, k :: 0 <= j < k < |results| ==> results[j] != results[k])
    && (forall k, u, v {:trigger m[u], results[k], Reach(x.g, u, v)} ::
      0 <= k < |results| && u in m && m[u] == results[k] && Reach(x.g, u, v)
      ==> v in x.below || (v in m && m[v] in results[..k + 1]))
  }

  /** Only entries of `c` have disappeared from parent sets, and only entries of new SCCs have come. */
  ghost predicate ParentLinks(x: Repair, m: map<Node, SCC>, sccs: set<SCC>, results: seq<SCC>, parents: map<SCC, set<SCC>>) {
    && parents.Keys == sccs
    && (forall y, d :: y in parents && d != x.c ==>
         (d in parents[y] <==> if d in results then d != y && Calls(x.g, m, d, y) else y in x.was && d in x.was[y]))
    && (forall y :: y in parents && x.c in parents[y] ==> y in x.was && x.c in x.was[y])
  }

  ghost predicate LeafLinks(x: Repair, m: map<Node, SCC>, results: seq<SCC>, leaves: seq<SCC>) {
    NoRepeats(leaves) && forall y :: y in leaves <==> y in x.leaves || (y in results && IsLeaf(x.g, m, y))
  }

  ghost predicate Links(x: Repair, m: map<Node, SCC>, sccs: set<SCC>, results: seq<SCC>,
                        parents: map<SCC, set<SCC>>, leaves: seq<SCC>)
  {
    ParentLinks(x, m, sccs, results, parents) && LeafLinks(x, m, results, leaves)
  }

  /** `c` is no parent of `erased`, to which belongs whatever the walk found below a node outside `c`. */
  ghost predicate Erased(x: Repair, m: map<Node, SCC>, w: Walk, results: seq<SCC>, parents: map<SCC, set<SCC>>, erased: set<SCC>)
    requires Shape(RepairArea(x, m, results), w) && x.below <= x.before.sccMap.Keys
  {
    && (forall y :: y in erased && y in parents ==> x.c !in parents[y])
    && (forall u, v :: (u in w.pending || u in Split(m, results)) && Edge(x.g, u, v) && v in x.below
         ==> x.before.sccMap[v] in erased)
    && (forall k, j :: 0 <= k < |w.path| && 0 <= j < w.idx[k] && x.g[w.path[k]][j] in x.below
         ==> x.before.sccMap[x.g[w.path[k]][j]] in erased)
  }

  /** What the repair has achieved, apart from the walk. */
  ghost predicate Repaired(x: Repair, t: Tables, results: seq<SCC>, parents: map<SCC, set<SCC>>, leaves: seq<SCC>) {
    && Setting(x) && Sound(x.g, t)
    && Distributed(x, t.sccMap, results) && OthersNumbered(x, t)
    && Results(x, t.sccMap, t.nodes.Keys, results) && Links(x, t.sccMap, t.nodes.Keys, results, parents, leaves)
  }

  ghost predicate Repairing(x: Repair, t: Tables, w: Walk, next: int, results: seq<SCC>, parents: map<SCC, set<SCC>>,
                            leaves: seq<SCC>, erased: set<SCC>)
  {
    && Repaired(x, t, results, parents, leaves)
    && WalkInv(RepairArea(x, t.sccMap, results), w, next)
    && Erased(x, t.sccMap, w, results, parents, erased)
  }

  // ---------------------------------------------------------------- the steps of the repair

  lemma SettingFacts(x: Repair)
    requires Setting(x)
    ensures x.below <= x.before.sccMap.Keys && x.comp <= x.before.sccMap.Keys <= x.g.Keys && x.c in x.before.nodes
  {
  }

  lemma InRepair(x: Repair, t: Tables, results: seq<SCC>, parents: map<SCC, set<SCC>>, leaves: seq<SCC>, r: Node)
    requires Repaired(x, t, results, parents, leaves) && r in x.comp
    ensures r in x.g && r in t.num && r in t.low && r in RepairArea(x, t.sccMap, results).dom
    ensures x.below <= x.before.sccMap.Keys
  {
  }

  lemma ChildInRepair(x: Repair, t: Tables, results: seq<SCC>, parents: map<SCC, set<SCC>>, leaves: seq<SCC>, n: Node, c: Node)
    requires Repaired(x, t, results, parents, leaves) && n in x.comp && Edge(x.g, n, c)
    ensures c in x.g && c in t.num && c in t.low && c in RepairArea(x, t.sccMap, results).dom
    ensures c !in t.sccMap ==> c in x.comp
    ensures c in t.sccMap ==> t.sccMap[c] in parents
    ensures c in t.sccMap ==> t.sccMap[c] == x.c || c in RepairArea(x, t.sccMap, results).fin
    ensures c in t.sccMap && c in x.below ==> c in x.before.sccMap && t.sccMap[c] == x.before.sccMap[c]
  {
    assert c in x.comp + x.below;
  }

  /** Numbering a node of the component that is in no SCC changes nothing else. */
  lemma NumberedRepair(x: Repair, t: Tables, results: seq<SCC>, parents: map<SCC, set<SCC>>, leaves: seq<SCC>,
                       n: Node, num: int, low: int)
    requires Repaired(x, t, results, parents, leaves) && n in x.comp
    requires Sound(x.g, t.(num := t.num[n := num], low := t.low[n := low]))
    ensures Repaired(x, t.(num := t.num[n := num], low := t.low[n := low]), results, parents, leaves)
  {
    hide Setting, Distributed, Results, Links;
  }

  lemma RepairStart(x: Repair, t: Tables, pending: seq<Node>, par: map<Node, Node>, next: int, results: seq<SCC>,
                    parents: map<SCC, set<SCC>>, leaves: seq<SCC>, erased: set<SCC>, r: Node)
    requires Repairing(x, t, WalkOf(t, [], pending, par), next, results, parents, leaves, erased)
    requires r in x.comp && r in t.num && t.num[r] == 0
    ensures var t' := t.(num := t.num[r := 1], low := t.low[r := 1]);
      Repairing(x, t', WalkOf(t', [(r, 0)], pending, par), 2, results, parents, leaves, erased)
  {
    hide WalkInv, Sound, Distributed, Results, Links, Setting, OthersNumbered, Split;
    var t' := t.(num := t.num[r := 1], low := t.low[r := 1]);
    var a := RepairArea(x, t.sccMap, results);
    InRepair(x, t, results, parents, leaves, r);
    StepStart(t, a, pending, par, next, r);
    NumberedRepair(x, t, results, parents, leaves, r, 1, 1);
    ShapeOf(a, WalkOf(t', [(r, 0)], pending, par), 2);
  }

  lemma RepairPush(x: Repair, t: Tables, stack: seq<(Node, nat)>, pending: seq<Node>, par: map<Node, Node>, next: int,
                   results: seq<SCC>, parents: map<SCC, set<SCC>>, leaves: seq<SCC>, erased: set<SCC>,
                   n: Node, i: nat, c: Node)
    requires Repairing(x, t, WalkOf(t, stack + [(n, i)], pending, par), next, results, parents, leaves, erased)
    requires n in x.comp && n in x.g && i < |x.g[n]| && c == x.g[n][i] && c !in t.sccMap && c in t.num && t.num[c] == 0
    ensures var t' := t.(num := t.num[c := next], low := t.low[c := next]);
      Repairing(x, t', WalkOf(t', stack + [(n, i)] + [(c, 0)], pending, par[c := n]), next + 1, results, parents, leaves, erased)
  {
    hide WalkInv, Sound, Distributed, Results, Links, Setting, OthersNumbered, Split;
    var t' := t.(num := t.num[c := next], low := t.low[c := next]);
    var a := RepairArea(x, t.sccMap, results);
    assert Edge(x.g, n, c);
    InRepair(x, t, results, parents, leaves, n);
    ChildInRepair(x, t, results, parents, leaves, n, c);
    StepPush(t, a, stack, pending, par, next, n, i, c, i);
    NumberedRepair(x, t, results, parents, leaves, c, next, next);
    ShapeOf(a, WalkOf(t', stack + [(n, i)] + [(c, 0)], pending, par[c := n]), next + 1);
  }

  lemma RepairPop(x: Repair, t: Tables, stack: seq<(Node, nat)>, pending: seq<Node>, par: map<Node, Node>, next: int,
                  results: seq<SCC>, parents: map<SCC, set<SCC>>, leaves: seq<SCC>, erased: set<SCC>, n: Node, i: nat)
    requires Repairing(x, t, WalkOf(t, stack + [(n, i)], pending, par), next, results, parents, leaves, erased)
    requires n in x.comp && n in x.g && i == |x.g[n]| && n in t.num && n in t.low && t.low[n] != t.num[n]
    ensures stack != [] && Repairing(x, t, WalkOf(t, stack, pending + [n], par), next, results, parents, leaves, erased)
  {
    hide WalkInv, Sound, Distributed, Results, Links, Setting, OthersNumbered, Split;
    var a := RepairArea(x, t.sccMap, results);
    var w, w' := WalkOf(t, stack + [(n, i)], pending, par), WalkOf(t, stack, pending + [n], par);
    StepPop(t, a, stack, pending, par, next, n, i);
    ShapeOf(a, w', next);
    InRepair(x, t, results, parents, leaves, n);
    forall v | Edge(x.g, n, v) && v in x.below ensures v in x.before.sccMap && x.before.sccMap[v] in erased {
      var j :| 0 <= j < |x.g[n]| && x.g[n][j] == v;
      assert w.path[|stack|] == n && w.idx[|stack|] == i;
      assert x.before.sccMap[x.g[w.path[|stack|]][j]] in erased;
    }
    forall k | 0 <= k < |stack| ensures w'.path[k] == w.path[k] && w'.idx[k] == w.idx[k] {}
  }

  /** The child is still being visited itself. */
  lemma RepairOld(x: Repair, t: Tables, t': Tables, stack: seq<(Node, nat)>, pending: seq<Node>, par: map<Node, Node>, next: int,
                  results: seq<SCC>, parents: map<SCC, set<SCC>>, leaves: seq<SCC>, erased: set<SCC>,
                  n: Node, i: nat, c: Node)
    requires n in x.comp && n in x.g && i < |x.g[n]| && c == x.g[n][i]
    requires c !in t.sccMap && n in t.low && c in t.low && c in t.num && t.num[c] != 0
    requires t' == t.(low := t.low[n := NewLow(t, n, c)])
    requires Repairing(x, t, WalkOf(t, stack + [(n, i)], pending, par), next, results, parents, leaves, erased)
    ensures Repairing(x, t', WalkOf(t', Onward(stack, n, i), pending, par), next, results, parents, leaves, erased)
  {
    hide WalkInv, Sound, Distributed, Results, Links, Setting, OthersNumbered, Split, Shape;
    var a := RepairArea(x, t.sccMap, results);
    var w, w' := WalkOf(t, stack + [(n, i)], pending, par), WalkOf(t', Onward(stack, n, i), pending, par);
    assert Edge(x.g, n, c);
    InRepair(x, t, results, parents, leaves, n);
    ChildInRepair(x, t, results, parents, leaves, n, c);
    StepAdvance(t, a, stack, pending, par, next, n, i, c);
    assert t.num[n := t.num[n]] == t.num;
    assert t.(num := t.num[n := t.num[n]], low := t'.low) == t';
    NumberedRepair(x, t, results, parents, leaves, n, t.num[n], NewLow(t, n, c));
    BelowPlaced(x, t, results, c);
    ErasedAdvance(x, t.sccMap, a, w, w', next, results, parents, parents, erased, erased, stack, n, i, c);
  }

  lemma BelowPlaced(x: Repair, t: Tables, results: seq<SCC>, c: Node)
    requires Setting(x) && Distributed(x, t.sccMap, results) && c !in t.sccMap
    ensures c !in x.below
  {
  }

  /** One more edge has been looked at; if it leads below, the SCC it leads to is among the erased ones now. */
  lemma ErasedAdvance(x: Repair, m: map<Node, SCC>, a: Area, w: Walk, w': Walk, next: int, results: seq<SCC>,
                      parents: map<SCC, set<SCC>>, parents': map<SCC, set<SCC>>, erased: set<SCC>, erased': set<SCC>,
                      stack: seq<(Node, nat)>, n: Node, i: nat, c: Node)
    requires a == RepairArea(x, m, results) && WalkInv(a, w, next) && WalkInv(a, w', next) && x.below <= x.before.sccMap.Keys
    requires w.path == Firsts(stack + [(n, i)]) && w.idx == Seconds(stack + [(n, i)])
    requires w'.path == Firsts(Onward(stack, n, i)) && w'.idx == Seconds(Onward(stack, n, i)) && w'.pending == w.pending
    requires n in x.g && i < |x.g[n]| && c == x.g[n][i]
    requires Erased(x, m, w, results, parents, erased)
    requires erased <= erased' && (forall y :: y in erased' && y in parents' ==> x.c !in parents'[y])
    requires c in x.below ==> x.before.sccMap[c] in erased'
    ensures Erased(x, m, w', results, parents', erased')
  {
    ShapeOf(a, w', next);
    forall k, j | 0 <= k < |w'.path| && 0 <= j < w'.idx[k] && x.g[w'.path[k]][j] in x.below
      ensures x.before.sccMap[x.g[w'.path[k]][j]] in erased'
    {
      assert w'.path[k] == w.path[k];
      if k < |stack| || j < i {
        assert x.before.sccMap[x.g[w.path[k]][j]] in erased;
      }
    }
  }

  /** The child is in another SCC, whose parent `c` is for the time being no more (LazyCallGraph.cpp:405-409). */
  lemma RepairOther(x: Repair, t: Tables, stack: seq<(Node, nat)>, pending: seq<Node>, par: map<Node, Node>, next: int,
                    results: seq<SCC>, parents: map<SCC, set<SCC>>, parents': map<SCC, set<SCC>>, leaves: seq<SCC>,
                    erased: set<SCC>, n: Node, i: nat, c: Node, d: SCC)
    requires n in x.comp && n in x.g && i < |x.g[n]| && c == x.g[n][i]
    requires c in t.sccMap && d == t.sccMap[c] && d != x.c && d in parents && parents' == parents[d := parents[d] - {x.c}]
    requires Repairing(x, t, WalkOf(t, stack + [(n, i)], pending, par), next, results, parents, leaves, erased)
    ensures Repairing(x, t, WalkOf(t, Onward(stack, n, i), pending, par), next, results, parents', leaves, erased + {d})
  {
    hide WalkInv, Sound, Distributed, Results, Setting, OthersNumbered, Split, Calls, IsLeaf;
    var a := RepairArea(x, t.sccMap, results);
    var w, w' := WalkOf(t, stack + [(n, i)], pending, par), WalkOf(t, Onward(stack, n, i), pending, par);
    assert Edge(x.g, n, c);
    InRepair(x, t, results, parents, leaves, n);
    ChildInRepair(x, t, results, parents, leaves, n, c);
    SoundNumbers(x.g, t, c);
    StepAdvance(t, a, stack, pending, par, next, n, i, c);
    assert t.low[n := t.low[n]] == t.low;
    ErasedAdvance(x, t.sccMap, a, w, w', next, results, parents, parents', erased, erased + {d}, stack, n, i, c);
  }

  /** All nodes of the walk. */
  ghost function Walked(w: Walk): set<Node> {
    Elements(w.path) + Elements(w.pending)
  }

  /** The stacks hold different nodes that are in no SCC. */
  lemma StacksUnplaced(x: Repair, t: Tables, stack: seq<(Node, nat)>, n: Node, i: nat, pending: seq<Node>, par: map<Node, Node>,
                       next: int, results: seq<SCC>, parents: map<SCC, set<SCC>>, leaves: seq<SCC>, erased: set<SCC>)
    requires Repairing(x, t, WalkOf(t, stack + [(n, i)], pending, par), next, results, parents, leaves, erased)
    ensures Sound(x.g, t) && x.c in t.nodes && Unplaced(x.g, t, [n] + pending + Firsts(stack))
    ensures Elements([n]) + Elements(pending) + Elements(Firsts(stack)) == Walked(WalkOf(t, stack + [(n, i)], pending, par))
  {
    hide Results, Links, Erased, Scanned, Lows, Tree, Suffixes, Numbers, Shape, Setting, Distributed, Sound, OthersNumbered;
    var a, w := RepairArea(x, t.sccMap, results), WalkOf(t, stack + [(n, i)], pending, par);
    OldSCCs(x, t, results, parents, leaves);
    assert w.path == Firsts(stack) + [n];
    forall v | v in Walked(w) ensures v in x.g && v !in t.sccMap {
      WalkedUnplaced(x, t, w, results, v);
    }
    StacksDistinct(a, w, next);
    assert Elements(w.path) == Elements(Firsts(stack)) + {n};
    hide Repaired, WalkInv, RepairArea;
    StackOrder(x.g, t, n, pending, Firsts(stack), w.path);
  }

  lemma WalkedUnplaced(x: Repair, t: Tables, w: Walk, results: seq<SCC>, v: Node)
    requires Setting(x) && Sound(x.g, t) && Distributed(x, t.sccMap, results) && w.num == t.num
    requires Shape(RepairArea(x, t.sccMap, results), w) && v in Walked(w)
    ensures v in x.comp && v in x.g && v !in t.sccMap
  {
    assert Active(RepairArea(x, t.sccMap, results), w, v);
    ActiveInComp(x, t, results, w, v);
  }

  lemma StackOrder(g: Graph, t: Tables, n: Node, pending: seq<Node>, stack: seq<Node>, path: seq<Node>)
    requires path == stack + [n]
    requires forall v :: v in path || v in pending ==> v in g && v !in t.sccMap
    requires forall i, j :: 0 <= i < j < |path| ==> path[i] != path[j]
    requires forall i, j :: 0 <= i < j < |pending| ==> pending[i] != pending[j]
    requires forall i, j :: 0 <= i < |path| && 0 <= j < |pending| ==> path[i] != pending[j]
    ensures Unplaced(g, t, [n] + pending + stack)
  {
    var s := [n] + pending + stack;
    assert path[|stack|] == n;
    forall i | 0 <= i < |s|
      ensures s[i] == if i == 0 then n else if i <= |pending| then pending[i - 1] else path[i - 1 - |pending|] {}
  }

  lemma StacksDistinct(a: Area, w: Walk, next: int)
    requires Shape(a, w) && Numbers(a, w, next)
    ensures forall i, j :: 0 <= i < j < |w.path| ==> w.path[i] != w.path[j]
    ensures forall i, j :: 0 <= i < j < |w.pending| ==> w.pending[i] != w.pending[j]
    ensures forall i, j :: 0 <= i < |w.path| && 0 <= j < |w.pending| ==> w.path[i] != w.pending[j]
  {
  }

  lemma NextPositive(x: Repair, t: Tables, w: Walk, next: int, results: seq<SCC>, parents: map<SCC, set<SCC>>,
                     leaves: seq<SCC>, erased: set<SCC>)
    requires Repairing(x, t, w, next, results, parents, leaves, erased)
    ensures next >= 1
  {
    TopNumbers(RepairArea(x, t.sccMap, results), w, next);
  }

  lemma TopInComp(x: Repair, t: Tables, w: Walk, next: int, results: seq<SCC>, parents: map<SCC, set<SCC>>,
                  leaves: seq<SCC>, erased: set<SCC>)
    requires Repairing(x, t, w, next, results, parents, leaves, erased) && w.num == t.num && w.path != []
    ensures Top(w) in x.comp && Top(w) in x.g && |w.idx| == |w.path| && w.idx[|w.path| - 1] <= |x.g[Top(w)]|
    ensures Top(w) in t.num && Top(w) in t.low && t.num[Top(w)] != 0
  {
    hide Results, Links, Erased, Scanned, Lows, Tree, Suffixes, Numbers;
    var a := RepairArea(x, t.sccMap, results);
    assert Active(a, w, Top(w));
    ActiveInComp(x, t, results, w, Top(w));
  }

  // ---------------------------------------------------------------- a new SCC is formed

  /** Placing more nodes changes nothing about the calls of an SCC all of whose callees are placed. */
  lemma CallsStable(g: Graph, m: map<Node, SCC>, m': map<Node, SCC>, d: SCC)
    requires forall v :: v in m ==> v in m' && m'[v] == m[v]
    requires forall v :: v in m' && v !in m ==> m'[v] != d
    requires forall u, v :: u in m && m[u] == d && Edge(g, u, v) ==> v in m
    ensures forall y :: Calls(g, m', d, y) <==> Calls(g, m, d, y)
    ensures IsLeaf(g, m', d) <==> IsLeaf(g, m, d)
  {
    forall y ensures Calls(g, m', d, y) <==> Calls(g, m, d, y) {
      if Calls(g, m', d, y) {
        var u :| u in m' && m'[u] == d && NodeCalls(g, m', u, y);
        assert NodeCalls(g, m, u, y);
      }
      if Calls(g, m, d, y) {
        var u :| u in m && m[u] == d && NodeCalls(g, m, u, y);
        assert NodeCalls(g, m', u, y);
      }
    }
  }

  /** More members of the component have been placed, in `c` or in a new SCC. */
  ghost predicate PlacedMore(x: Repair, m: map<Node, SCC>, m': map<Node, SCC>, d: SCC, s: set<Node>) {
    Mapped(m, m', d, s) && s !! m.Keys && s <= x.comp
  }

  lemma ResultsStable(x: Repair, m: map<Node, SCC>, m': map<Node, SCC>, sccs: set<SCC>, results: seq<SCC>, d: SCC, s: set<Node>)
    requires Setting(x) && Distributed(x, m, results) && Results(x, m, sccs, results) && PlacedMore(x, m, m', d, s) && d !in results
    requires Closed(x.g, x.below + Split(m, results))
    ensures Results(x, m', sccs, results) && Split(m', results) == Split(m, results)
    ensures forall r, y :: r in results ==> (Calls(x.g, m', r, y) <==> Calls(x.g, m, r, y))
    ensures forall r :: r in results ==> (IsLeaf(x.g, m', r) <==> IsLeaf(x.g, m, r))
  {
    hide IsSCC, Reach, Calls, IsLeaf;
    forall r | r in results ensures Members(m', r) == Members(m, r) {}
    forall r | r in results
      ensures (forall y :: Calls(x.g, m', r, y) <==> Calls(x.g, m, r, y)) && (IsLeaf(x.g, m', r) <==> IsLeaf(x.g, m, r))
    {
      forall u, v | u in m && m[u] == r && Edge(x.g, u, v) ensures v in m {
        assert u in Split(m, results);
      }
      CallsStable(x.g, m, m', r);
    }
  }

  /** The active nodes of the walk belong to the component and are in no SCC. */
  lemma ActiveInComp(x: Repair, t: Tables, results: seq<SCC>, w: Walk, v: Node)
    requires Setting(x) && Sound(x.g, t) && Distributed(x, t.sccMap, results) && w.num == t.num
    requires Shape(RepairArea(x, t.sccMap, results), w) && Active(RepairArea(x, t.sccMap, results), w, v)
    ensures v in x.comp && v !in t.sccMap
  {
  }

  lemma SplitMore(x: Repair, m: map<Node, SCC>, m': map<Node, SCC>, results: seq<SCC>, r: SCC, s: set<Node>)
    requires Distributed(x, m, results) && PlacedMore(x, m, m', r, s) && x.comp <= x.before.sccMap.Keys
    requires r !in m.Values && x.c != r && r !in results
    ensures Split(m', results + [r]) == Split(m, results) + s && Members(m', r) == s
    ensures Distributed(x, m', results + [r])
  {
    hide Reach;
    assert forall d :: d in results + [r] <==> d in results || d == r;
    assert forall v :: v in m ==> m[v] != r;
  }

  lemma OrderMore(x: Repair, m: map<Node, SCC>, m': map<Node, SCC>, sccs: set<SCC>, results: seq<SCC>, r: SCC, s: set<Node>)
    requires Results(x, m, sccs, results) && PlacedMore(x, m, m', r, s) && r !in results
    requires Closed(x.g, x.below + Split(m, results) + s)
    requires Split(m', results + [r]) == Split(m, results) + s && Members(m', r) == s
    ensures forall k, u, v {:trigger m'[u], (results + [r])[k], Reach(x.g, u, v)} ::
      0 <= k < |results + [r]| && u in m' && m'[u] == (results + [r])[k] && Reach(x.g, u, v)
      ==> v in x.below || (v in m' && m'[v] in (results + [r])[..k + 1])
  {
    hide IsSCC, Reach, Closed;
    var results' := results + [r];
    forall k, u, v | 0 <= k < |results'| && u in m' && m'[u] == results'[k] && Reach(x.g, u, v)
      ensures v in x.below || (v in m' && m'[v] in results'[..k + 1])
    {
      if k < |results| {
        assert u !in s;
        assert m[u] == results[k];
        assert results'[..k + 1] == results[..k + 1];
      } else {
        assert u in Members(m', r);
        ReachStays(x.g, x.below + Split(m, results) + s, u, v);
        assert results'[..k + 1] == results';
      }
    }
  }

  lemma ResultsMore(x: Repair, m: map<Node, SCC>, m': map<Node, SCC>, sccs: set<SCC>, results: seq<SCC>, r: SCC, s: set<Node>)
    requires Setting(x) && Distributed(x, m, results) && Results(x, m, sccs, results) && PlacedMore(x, m, m', r, s)
    requires forall v :: v in m ==> m[v] in sccs
    requires r !in sccs && x.c in sccs && IsSCC(x.g, s)
    requires Closed(x.g, x.below + Split(m, results)) && Closed(x.g, x.below + Split(m, results) + s)
    ensures Results(x, m', sccs + {r}, results + [r]) && Split(m', results + [r]) == Split(m, results) + s
    ensures Distributed(x, m', results + [r])
  {
    hide IsSCC, Reach, Distributed, Mapped, Closed, Calls, IsLeaf;
    assert r !in results;
    SettingFacts(x);
    hide Setting;
    ResultsStable(x, m, m', sccs, results, r, s);
    SplitMore(x, m, m', results, r, s);
    OrderMore(x, m, m', sccs, results, r, s);
    assert forall d :: d in results + [r] <==> d in results || d == r;
  }

  /** A number not given to any SCC yet occurs nowhere. */
  lemma UnusedSCC(x: Repair, m: map<Node, SCC>, sccs: set<SCC>, results: seq<SCC>, parents: map<SCC, set<SCC>>,
                  leaves: seq<SCC>, r: SCC)
    requires Setting(x) && Results(x, m, sccs, results) && Links(x, m, sccs, results, parents, leaves)
    requires r !in sccs && x.c in sccs && forall v :: v in m ==> m[v] in sccs
    ensures r !in x.was && r !in x.leaves && r !in results && r != x.c && r !in leaves
    ensures forall y :: y in parents ==> r !in parents[y]
    ensures forall d :: !Calls(x.g, m, d, r)
  {
  }

  lemma LeafIfNoHit(g: Graph, m: map<Node, SCC>, r: SCC, hit: set<SCC>)
    requires forall d :: d in hit <==> d != r && Calls(g, m, r, d)
    ensures IsLeaf(g, m, r) <==> hit == {}
  {
    if hit != {} {
      var d :| d in hit;
    }
  }

  lemma LinksMore(x: Repair, m: map<Node, SCC>, m': map<Node, SCC>, sccs: set<SCC>, results: seq<SCC>, r: SCC, s: set<Node>,
                  hit: set<SCC>, parents: map<SCC, set<SCC>>, parents': map<SCC, set<SCC>>, leaves: seq<SCC>, leaves': seq<SCC>)
    requires Setting(x) && Distributed(x, m, results) && Results(x, m, sccs, results) && PlacedMore(x, m, m', r, s)
    requires forall v :: v in m ==> m[v] in sccs
    requires r !in sccs && x.c in sccs && Closed(x.g, x.below + Split(m, results))
    requires Links(x, m, sccs, results, parents, leaves)
    requires Entered(parents[r := {}], parents', r, hit) && forall d :: d in hit <==> d != r && Calls(x.g, m', r, d)
    requires leaves' == leaves + if hit == {} then [r] else []
    ensures Links(x, m', sccs + {r}, results + [r], parents', leaves')
  {
    hide Calls, IsLeaf, Results, Distributed, Setting, Mapped, ParentLinks, LeafLinks, Entered, Closed, Split;
    UnusedSCC(x, m, sccs, results, parents, leaves, r);
    ResultsStable(x, m, m', sccs, results, r, s);
    LeafIfNoHit(x.g, m', r, hit);
    LeavesMore(x, m, m', results, r, hit, leaves, leaves');
    ParentsMore(x, m, m', sccs, results, r, hit, parents, parents');
  }

  lemma LeavesMore(x: Repair, m: map<Node, SCC>, m': map<Node, SCC>, results: seq<SCC>, r: SCC, hit: set<SCC>,
                   leaves: seq<SCC>, leaves': seq<SCC>)
    requires LeafLinks(x, m, results, leaves)
    requires forall d :: d in results ==> (IsLeaf(x.g, m', d) <==> IsLeaf(x.g, m, d))
    requires (IsLeaf(x.g, m', r) <==> hit == {}) && leaves' == leaves + if hit == {} then [r] else []
    requires r !in x.leaves && r !in results
    ensures LeafLinks(x, m', results + [r], leaves')
  {
    hide IsLeaf;
  }

  lemma ParentsMore(x: Repair, m: map<Node, SCC>, m': map<Node, SCC>, sccs: set<SCC>, results: seq<SCC>, r: SCC,
                    hit: set<SCC>, parents: map<SCC, set<SCC>>, parents': map<SCC, set<SCC>>)
    requires ParentLinks(x, m, sccs, results, parents)
    requires forall d, y :: d in results ==> (Calls(x.g, m', d, y) <==> Calls(x.g, m, d, y))
    requires Entered(parents[r := {}], parents', r, hit) && forall d :: d in hit <==> d != r && Calls(x.g, m', r, d)
    requires r !in x.was && r !in results && r != x.c && (forall y :: y in parents ==> r !in parents[y])
    requires forall d :: !Calls(x.g, m, d, r)
    ensures ParentLinks(x, m', sccs + {r}, results + [r], parents')
  {
    hide Calls;
    assert parents'.Keys == sccs + {r};
  }

  lemma PendingFlushed(x: Repair, t: Tables, w: Walk, next: int, results: seq<SCC>, parents: map<SCC, set<SCC>>,
                       leaves: seq<SCC>, erased: set<SCC>)
    requires Repairing(x, t, w, next, results, parents, leaves, erased) && w.path == []
    ensures w.pending == []
  {
  }

  lemma SplitShape(x: Repair, t: Tables, w: Walk, next: int, results: seq<SCC>, parents: map<SCC, set<SCC>>,
                   leaves: seq<SCC>, erased: set<SCC>)
    requires Repairing(x, t, w, next, results, parents, leaves, erased)
    ensures Shape(RepairArea(x, t.sccMap, results), w)
  {
  }

  lemma SplitReady(x: Repair, t: Tables, w: Walk, next: int, results: seq<SCC>, parents: map<SCC, set<SCC>>,
                   leaves: seq<SCC>, erased: set<SCC>)
    requires Repairing(x, t, w, next, results, parents, leaves, erased)
    requires w.path != [] && Top(w) in x.g && w.idx != [] && w.idx[|w.idx| - 1] == |x.g[Top(w)]| && w.num == t.num && w.low == t.low
    requires Top(w) in w.low && Top(w) in w.num && w.low[Top(w)] == w.num[Top(w)]
    ensures Sound(x.g, t) && parents.Keys == t.nodes.Keys && WalkInv(RepairArea(x, t.sccMap, results), w, next)
    ensures AtRoot(RepairArea(x, t.sccMap, results), w) && RepairArea(x, t.sccMap, results).fin <= t.sccMap.Keys
  {
    hide WalkInv, Erased;
    RootReached(RepairArea(x, t.sccMap, results), w, next);
    hide Results, LeafLinks;
  }

  lemma RepairForm(x: Repair, t: Tables, t': Tables, stack: seq<(Node, nat)>, w: Walk, next: int, results: seq<SCC>,
                   parents: map<SCC, set<SCC>>, parents': map<SCC, set<SCC>>, leaves: seq<SCC>, leaves': seq<SCC>,
                   erased: set<SCC>, n: Node, r: SCC, rest: seq<Node>, hit: set<SCC>)
    requires n in x.g && w.path == Firsts(stack) + [n] && w.idx == Seconds(stack) + [|x.g[n]|]
    requires w.num == t.num && w.low == t.low
    requires Repairing(x, t, w, next, results, parents, leaves, erased) && AtRoot(RepairArea(x, t.sccMap, results), w)
    requires r !in t.nodes && Sound(x.g, t')
    requires Moved(x.g, t.(nodes := t.nodes[r := []]), t', r, Component(RepairArea(x, t.sccMap, results), w))
    requires rest <= w.pending && forall v :: v in rest <==> v in w.pending && v !in Component(RepairArea(x, t.sccMap, results), w)
    requires Entered(parents[r := {}], parents', r, hit) && forall d :: d in hit <==> d != r && Calls(x.g, t'.sccMap, r, d)
    requires leaves' == leaves + if hit == {} then [r] else []
    ensures Repairing(x, t', WalkOf(t', stack, rest, w.par), next, results + [r], parents', leaves', erased)
  {
    hide WalkInv, Shape, Sound, Distributed, Results, Setting, OthersNumbered, Split, Links, Calls, Component, Moved, AtRoot, Entered, Erased, Closed;
    var a := RepairArea(x, t.sccMap, results);
    ShapeOf(a, w, next);
    var s := Component(a, w);
    ComponentIsSCC(a, w, next);
    ComponentClosed(a, w, next);
    SCCsClosed(a, w, next);
    PlacedComponent(x, t, t', results, parents, leaves, w, next, r);
    FormedWalk(t, t', a, stack, n, w, next, r, rest);
    MovedKeys(t, t', x.g, r, s);
    ResultsMore(x, t.sccMap, t'.sccMap, t.nodes.Keys, results, r, s);
    LinksMore(x, t.sccMap, t'.sccMap, t.nodes.Keys, results, r, s, hit, parents, parents', leaves, leaves');
    assert a.fin + s == x.below + Split(t'.sccMap, results + [r]);
    UnusedSCC(x, t.sccMap, t.nodes.Keys, results, parents, leaves, r);
    SettingFacts(x);
    ErasedForm(x, t, t', w, next, results, parents, parents', erased, stack, n, r, rest, hit);
  }

  lemma PlacedComponent(x: Repair, t: Tables, t': Tables, results: seq<SCC>, parents: map<SCC, set<SCC>>, leaves: seq<SCC>,
                        w: Walk, next: int, r: SCC)
    requires Repaired(x, t, results, parents, leaves) && WalkInv(RepairArea(x, t.sccMap, results), w, next)
    requires w.num == t.num && w.path != [] && r !in t.nodes
    requires Moved(x.g, t.(nodes := t.nodes[r := []]), t', r, Component(RepairArea(x, t.sccMap, results), w)) && Sound(x.g, t')
    ensures PlacedMore(x, t.sccMap, t'.sccMap, r, Component(RepairArea(x, t.sccMap, results), w)) && OthersNumbered(x, t')
    ensures x.c in t.nodes && forall v :: v in t.sccMap ==> t.sccMap[v] in t.nodes.Keys
  {
    hide Results, Links, WalkInv, Setting, Shape, Listed;
    var a := RepairArea(x, t.sccMap, results);
    ShapeOf(a, w, next);
    forall v | v in Component(a, w) ensures v in x.comp && v !in t.sccMap {
      ComponentInComp(x, t, results, w, next, v);
    }
    OldSCCs(x, t, results, parents, leaves);
  }

  lemma OldSCCs(x: Repair, t: Tables, results: seq<SCC>, parents: map<SCC, set<SCC>>, leaves: seq<SCC>)
    requires Repaired(x, t, results, parents, leaves)
    ensures x.c in t.nodes && forall v :: v in t.sccMap ==> t.sccMap[v] in t.nodes.Keys
  {
  }

  lemma ComponentInComp(x: Repair, t: Tables, results: seq<SCC>, w: Walk, next: int, v: Node)
    requires Setting(x) && Sound(x.g, t) && Distributed(x, t.sccMap, results) && w.num == t.num && w.path != []
    requires Shape(RepairArea(x, t.sccMap, results), w) && v in Component(RepairArea(x, t.sccMap, results), w)
    ensures v in x.comp && v !in t.sccMap
  {
    assert Active(RepairArea(x, t.sccMap, results), w, v);
    ActiveInComp(x, t, results, w, v);
  }

  lemma ErasedForm(x: Repair, t: Tables, t': Tables, w: Walk, next: int, results: seq<SCC>,
                   parents: map<SCC, set<SCC>>, parents': map<SCC, set<SCC>>,
                   erased: set<SCC>, stack: seq<(Node, nat)>, n: Node, r: SCC, rest: seq<Node>, hit: set<SCC>)
    requires x.below <= x.before.sccMap.Keys && n in x.g && r != x.c
    requires w.path == Firsts(stack) + [n] && w.idx == Seconds(stack) + [|x.g[n]|]
    requires WalkInv(RepairArea(x, t.sccMap, results), w, next)
    requires WalkInv(RepairArea(x, t'.sccMap, results + [r]), WalkOf(t', stack, rest, w.par), next)
    requires rest <= w.pending && Entered(parents[r := {}], parents', r, hit)
    requires Split(t'.sccMap, results + [r]) == Split(t.sccMap, results) + Component(RepairArea(x, t.sccMap, results), w)
    requires Erased(x, t.sccMap, w, results, parents, erased)
    ensures Erased(x, t'.sccMap, WalkOf(t', stack, rest, w.par), results + [r], parents', erased)
  {
    hide WalkInv, Shape, Reach, RepairArea, Split;
    ShapeOf(RepairArea(x, t.sccMap, results), w, next);
    var w', results' := WalkOf(t', stack, rest, w.par), results + [r];
    ShapeOf(RepairArea(x, t'.sccMap, results'), w', next);
    forall v | Edge(x.g, n, v) && v in x.below ensures x.before.sccMap[v] in erased {
      var j :| 0 <= j < |x.g[n]| && x.g[n][j] == v;
      assert w.path[|stack|] == n;
      assert x.before.sccMap[x.g[w.path[|stack|]][j]] in erased;
    }
    assert forall u :: u in w'.pending || u in Split(t'.sccMap, results') ==> u == n || u in w.pending || u in Split(t.sccMap, results);
    forall k | 0 <= k < |w'.path| ensures w'.path[k] == w.path[k] && w'.idx[k] == w.idx[k] {}
  }

  // ---------------------------------------------------------------- the walk has met `c`

  lemma ActiveReachCallee(x: Repair, m: map<Node, SCC>, results: seq<SCC>, w: Walk, next: int, k: Node, v: Node)
    requires Distributed(x, m, results) && WalkInv(RepairArea(x, m, results), w, next)
    requires w.path != [] && Edge(x.g, Top(w), k) && k in m && m[k] == x.c
    requires Active(RepairArea(x, m, results), w, v)
    ensures Reach(x.g, v, x.callee)
  {
    ReachesTop(RepairArea(x, m, results), w, next, v);
    ReachEdge(x.g, Top(w), k);
    ReachTrans(x.g, v, Top(w), k);
    ReachTrans(x.g, v, k, x.callee);
  }


  lemma WalkedPlaced(x: Repair, t: Tables, w: Walk, next: int, results: seq<SCC>, k: Node, v: Node)
    requires Setting(x) && Sound(x.g, t) && Distributed(x, t.sccMap, results) && WalkInv(RepairArea(x, t.sccMap, results), w, next)
    requires w.path != [] && Edge(x.g, Top(w), k) && k in t.sccMap && t.sccMap[k] == x.c && w.num == t.num
    requires v in Walked(w)
    ensures v in x.comp && v !in t.sccMap && Reach(x.g, v, x.callee)
  {
    hide Scanned, Tree, Suffixes, Lows, Reach, Numbers;
    assert Active(RepairArea(x, t.sccMap, results), w, v);
    ActiveInComp(x, t, results, w, v);
    ActiveReachCallee(x, t.sccMap, results, w, next, k, v);
  }

  lemma DropPlaced(x: Repair, t: Tables, t': Tables, w: Walk, next: int, results: seq<SCC>, parents: map<SCC, set<SCC>>,
                   leaves: seq<SCC>, k: Node)
    requires Repaired(x, t, results, parents, leaves) && WalkInv(RepairArea(x, t.sccMap, results), w, next) && w.num == t.num
    requires w.path != [] && Edge(x.g, Top(w), k) && k in t.sccMap && t.sccMap[k] == x.c
    requires Moved(x.g, t, t', x.c, Walked(w)) && Sound(x.g, t')
    ensures PlacedMore(x, t.sccMap, t'.sccMap, x.c, Walked(w)) && OthersNumbered(x, t')
    ensures Distributed(x, t'.sccMap, results)
  {
    hide Results, Links, Listed, Reach, WalkInv, RepairArea, Walked;
    forall v | v in Walked(w) ensures v in x.comp && v !in t.sccMap && Reach(x.g, v, x.callee) {
      WalkedPlaced(x, t, w, next, results, k, v);
    }
  }

  lemma DropLinks(x: Repair, m: map<Node, SCC>, m': map<Node, SCC>, sccs: set<SCC>, results: seq<SCC>, s: set<Node>,
                  parents: map<SCC, set<SCC>>, leaves: seq<SCC>)
    requires Setting(x) && Distributed(x, m, results) && Results(x, m, sccs, results) && PlacedMore(x, m, m', x.c, s)
    requires Closed(x.g, x.below + Split(m, results)) && Links(x, m, sccs, results, parents, leaves)
    ensures Results(x, m', sccs, results) && Links(x, m', sccs, results, parents, leaves)
    ensures x.c !in results && Split(m', results) == Split(m, results)
  {
    hide Calls, IsLeaf, Distributed, Setting, Mapped, Closed, Links, Split;
    SettingFacts(x);
    assert x.c !in results;
    hide Results;
    ResultsStable(x, m, m', sccs, results, x.c, s);
    LinksSame(x, m, m', sccs, results, parents, leaves);
  }

  lemma LinksSame(x: Repair, m: map<Node, SCC>, m': map<Node, SCC>, sccs: set<SCC>, results: seq<SCC>,
                  parents: map<SCC, set<SCC>>, leaves: seq<SCC>)
    requires Links(x, m, sccs, results, parents, leaves)
    requires forall r, y :: r in results ==> (Calls(x.g, m', r, y) <==> Calls(x.g, m, r, y))
    requires forall r :: r in results ==> (IsLeaf(x.g, m', r) <==> IsLeaf(x.g, m, r))
    ensures Links(x, m', sccs, results, parents, leaves)
  {
    hide Calls, IsLeaf;
  }

  /** The node being visited leads to a node of `c`, so everything on the stacks is put into `c` (LazyCallGraph.cpp:396-403). */
  lemma RepairDrop(x: Repair, t: Tables, t': Tables, w: Walk, next: int, results: seq<SCC>, parents: map<SCC, set<SCC>>,
                   leaves: seq<SCC>, erased: set<SCC>, k: Node)
    requires Repairing(x, t, w, next, results, parents, leaves, erased) && w.num == t.num && w.low == t.low
    requires w.path != [] && Edge(x.g, Top(w), k) && k in t.sccMap && t.sccMap[k] == x.c
    requires Moved(x.g, t, t', x.c, Walked(w)) && Sound(x.g, t')
    ensures Repairing(x, t', WalkOf(t', [], [], w.par), next, results, parents, leaves, erased)
  {
    hide WalkInv, Shape, Distributed, Results, Setting, OthersNumbered, Split, Links, Closed, Sound, Reach;
    var a, w' := RepairArea(x, t.sccMap, results), WalkOf(t', [], [], w.par);
    ShapeOf(a, w, next);
    SCCsClosed(a, w, next);
    DropPlaced(x, t, t', w, next, results, parents, leaves, k);
    DropLinks(x, t.sccMap, t'.sccMap, t.nodes.Keys, results, Walked(w), parents, leaves);
    WalkedIsActive(x, t, t', a, w);
    DropKeeps(a, w, w', next);
    ShapeOf(a, w', next);
    SettingFacts(x);
  }

  lemma WalkedSet(a: Area, w: Walk)
    requires Shape(a, w)
    ensures Walked(w) == set v | v in a.dom && Active(a, w, v)
  {
    assert forall v :: v in Walked(w) <==> v in a.dom && Active(a, w, v);
  }

  lemma WalkedIsActive(x: Repair, t: Tables, t': Tables, a: Area, w: Walk)
    requires Shape(a, w) && a.g == x.g && Moved(x.g, t, t', x.c, Walked(w)) && w.num == t.num && w.low == t.low
    requires Sound(x.g, t')
    ensures Unnumbered(a, w, WalkOf(t', [], [], w.par), set v | v in a.dom && Active(a, w, v))
  {
    hide Shape, Walked, Listed, Mapped, Active;
    WalkedSet(a, w);
    ShapeKeys(a, w);
  }

  lemma ShapeKeys(a: Area, w: Walk)
    requires Shape(a, w)
    ensures a.dom <= a.g.Keys && a.dom <= w.num.Keys && a.dom <= w.low.Keys
  {
  }

  // ---------------------------------------------------------------- before the repair

  /** `t` is `t0` with the nodes `s` taken out of SCC `c` and not visited (LazyCallGraph.cpp:470-477). */
  ghost predicate Reset(g: Graph, t0: Tables, t: Tables, c: SCC, s: set<Node>) {
    && t.num.Keys == t.low.Keys == g.Keys && t0.num.Keys == t0.low.Keys == g.Keys && s <= g.Keys
    && (forall v :: v in g ==> t.num[v] == if v in s then 0 else t0.num[v])
    && (forall v :: v in g ==> t.low[v] == if v in s then 0 else t0.low[v])
    && t.sccMap == t0.sccMap - s
    && c in t0.nodes && t.nodes == t0.nodes[c := []]
  }

  lemma ResetMore(g: Graph, t0: Tables, t: Tables, c: SCC, s: set<Node>, n: Node)
    requires Reset(g, t0, t, c, s) && n in g
    ensures Reset(g, t0, Tables(t.num[n := 0], t.low[n := 0], t.sccMap - {n}, t.nodes), c, s + {n})
  {
  }

  lemma ResetNone(g: Graph, t0: Tables, c: SCC)
    requires Sound(g, t0) && c in t0.nodes
    ensures Reset(g, t0, t0.(nodes := t0.nodes[c := []]), c, {})
  {
  }

  lemma ResetSound(g: Graph, t0: Tables, t: Tables, c: SCC)
    requires Sound(g, t0) && Reset(g, t0, t, c, Members(t0.sccMap, c))
    ensures Sound(g, t) && t.sccMap.Keys == t0.sccMap.Keys - Members(t0.sccMap, c)
    ensures c in t0.nodes && t.nodes.Keys == t0.nodes.Keys
  {
  }

  lemma RepairSetting(g: Graph, g': Graph, u: Node, v: Node, t0: Tables, c: SCC, parents: map<SCC, set<SCC>>, leaves: seq<SCC>)
    requires EdgeRemoved(g, g', u, v) && WellFormed(g) && Sound(g, t0) && Closed(g, t0.sccMap.Keys)
    requires IsSCC(g, Members(t0.sccMap, c)) && v in Members(t0.sccMap, c) && c in t0.nodes
    requires parents.Keys == t0.nodes.Keys && (forall y, d :: y in parents && d in parents[y] ==> d in parents)
    requires NoRepeats(leaves) && forall y :: y in leaves ==> y in parents
    ensures Setting(Repair(g', c, v, Members(t0.sccMap, c), Below(g, Members(t0.sccMap, c)), t0, parents, leaves))
  {
    var s := Members(t0.sccMap, c);
    BelowClosed(g, s);
    BelowInside(g, s, t0.sccMap.Keys);
    hide IsSCC, Below;
    forall a, b | Edge(g', a, b) ensures Edge(g, a, b) {
      EdgesLeft(g, g', u, v, a, b);
    }
    BelowApart(g, s);
  }

  lemma BelowApart(g: Graph, s: set<Node>)
    ensures s !! Below(g, s)
  {
  }

  /** Only the callee is in `c` again. */
  ghost predicate Begun(x: Repair, t: Tables)
    requires Setting(x)
  {
    && Sound(x.g, t) && OthersNumbered(x, t)
    && t.sccMap.Keys == x.before.sccMap.Keys - x.comp + {x.callee}
    && (forall v :: v in t.sccMap ==> t.sccMap[v] == if v == x.callee then x.c else x.before.sccMap[v])
    && t.nodes.Keys == x.before.nodes.Keys
    && (forall v :: v in x.comp && v != x.callee ==> v in t.num && t.num[v] == 0)
  }

  lemma BeginInsert(x: Repair, t1: Tables)
    requires Setting(x) && Reset(x.g, x.before, t1, x.c, x.comp) && Sound(x.g, t1)
    ensures Begun(x, Inserted(t1, x.c, x.callee))
  {
    hide Listed, Closed, Below;
    SettingFacts(x);
    assert x.callee in x.g && x.callee !in t1.sccMap;
    InsertKeeps(x.g, t1, x.c, x.callee);
    assert forall v :: v in x.before.sccMap && v !in x.comp ==> v in t1.sccMap && t1.sccMap[v] == x.before.sccMap[v];
  }

  lemma BeginPlaced(x: Repair, t: Tables)
    requires Setting(x) && Begun(x, t)
    ensures Repaired(x, t, [], x.was, x.leaves)
  {
    ReachRefl(x.g, x.callee);
    hide Reach, Calls, IsLeaf, Closed, Listed, IsSCC;
  }

  lemma BeginWalk(x: Repair, t: Tables, par: map<Node, Node>, next: int)
    requires Setting(x) && Begun(x, t) && next >= 1
    ensures WalkInv(RepairArea(x, t.sccMap, []), WalkOf(t, [], [], par), next)
  {
    hide WalkInv, Setting, Begun;
    var a, w := RepairArea(x, t.sccMap, []), WalkOf(t, [], [], par);
    assert Split(t.sccMap, []) == {};
    BeginArea(x, t);
    forall v | v in x.comp + x.below ensures v in t.num && t.num[v] <= 0 && (v in x.below ==> t.num[v] < 0) {
      BeginNumbers(x, t, v);
    }
    NothingActive(a, w, next);
  }

  lemma BeginArea(x: Repair, t: Tables)
    requires Setting(x) && Begun(x, t)
    ensures Closed(x.g, x.below) && Closed(x.g, x.comp + x.below) && x.comp + x.below <= x.g.Keys
    ensures t.num.Keys == t.low.Keys == x.g.Keys
  {
    hide Closed, Listed, OthersNumbered;
  }

  lemma BeginNumbers(x: Repair, t: Tables, v: Node)
    requires Setting(x) && Begun(x, t) && v in x.comp + x.below
    ensures v in t.num && t.num[v] <= 0 && (v in x.below ==> t.num[v] < 0)
  {
    hide Closed, Listed, OthersNumbered;
    SoundNumbers(x.g, t, v);
  }

  lemma RepairBegin(x: Repair, t1: Tables, t2: Tables, par: map<Node, Node>, next: int)
    requires Setting(x) && Reset(x.g, x.before, t1, x.c, x.comp) && Sound(x.g, t1) && next >= 1
    requires x.c in t1.nodes && t2 == Inserted(t1, x.c, x.callee)
    ensures Repairing(x, t2, WalkOf(t2, [], [], par), next, [], x.was, x.leaves, {})
  {
    hide Reset, Sound, Begun, WalkInv, Shape;
    BeginInsert(x, t1);
    BeginPlaced(x, t2);
    BeginWalk(x, t2, par, next);
    SettingFacts(x);
    ShapeOf(RepairArea(x, t2.sccMap, []), WalkOf(t2, [], [], par), next);
    hide Setting, Repaired;
    assert Split(t2.sccMap, []) == {};
  }
}
