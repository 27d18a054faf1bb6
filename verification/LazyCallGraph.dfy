/**
 lib/Analysis/LazyCallGraph.cpp: the call graph that forms its strongly connected components (SCCs) on
 demand, in post-order, and repairs them when an edge inside one of them is removed.
 */
module LazyCallGraphs {
  import opened Digraph
  import opened EdgeRemoval
  import opened RepairOutcome
  import opened SCCRepair
  import opened SCCTables
  import opened TarjanWalk
  import opened Wrappers

  class LazyCallGraph {
    var callees: Graph                // the Callees of every node, removed slots left out
    var dfsNumber: map<Node, int>     // the DFSNumber of every node
    var lowLink: map<Node, int>       // the LowLink of every node
    var sccMap: map<Node, SCC>
    var nodes: map<SCC, seq<Node>>    // the Nodes of every SCC
    var parents: map<SCC, set<SCC>>   // the ParentSCCs of every SCC
    var sccCount: nat                 // the number of SCCs allocated
    var leafSCCs: seq<SCC>
    var dfsStack: seq<(Node, nat)>
    var sccEntryNodes: seq<Node>
    var pendingSCCStack: seq<Node>
    var nextDFSNumber: int
    ghost var par: map<Node, Node>
    ghost var entries: set<Node>

    /** The graph of a module, of which nothing has been visited yet (LazyCallGraph.cpp:100-131). */
    constructor (g: Graph, entryNodes: seq<Node>)
      requires WellFormed(g) && forall e :: e in entryNodes ==> e in g
      ensures Valid() && OnlyFromEntries() && ParentsExact() && sccMap == map[] && nodes == map[]
      ensures callees == g && entries == (set e | e in entryNodes)
    {
      hide WalkInv, Sound, AllSCCs, LeavesExact, VisitedFrom, EntriesSeen, ParentsOf;
      callees, entries := g, set e | e in entryNodes;
      dfsNumber, lowLink := map v | v in g :: 0, map v | v in g :: 0;
      sccMap, nodes, parents, sccCount, leafSCCs := map[], map[], map[], 0, [];
      dfsStack, sccEntryNodes, pendingSCCStack, nextDFSNumber, par := [], entryNodes, [], 1, map[];
      new;
      Untouched(callees, Now(), entries, sccEntryNodes);
    }

    ghost function Now(): Tables
      reads this`dfsNumber, this`lowLink, this`sccMap, this`nodes
    {
      Tables(dfsNumber, lowLink, sccMap, nodes)
    }

    /** Puts a node into an SCC (LazyCallGraph.cpp:159-163). */
    method Insert(c: SCC, n: Node)
      requires c in nodes
      modifies this`dfsNumber, this`lowLink, this`nodes, this`sccMap
      ensures Now() == Inserted(old(Now()), c, n)
    {
      dfsNumber := dfsNumber[n := -1];
      lowLink := lowLink[n := -1];
      nodes := nodes[c := nodes[c] + [n]];
      sccMap := sccMap[n := c];
    }

    /** The part of ConnectToChildren for one node; `hit` are the SCCs it found. */
    method ConnectNode(c: SCC, n: Node) returns (outside: bool, ghost hit: set<SCC>)
      requires n in callees && forall v :: v in callees[n] ==> v in sccMap && sccMap[v] in parents
      modifies this`parents
      ensures parents.Keys == old(parents).Keys && Entered(old(parents), parents, c, hit)
      ensures forall d :: d in hit <==> d != c && NodeCalls(callees, sccMap, n, d)
      ensures outside <==> hit != {}
    {
      outside, hit := false, {};
      var j := 0;
      while j < |callees[n]|
        invariant 0 <= j <= |callees[n]|
        invariant Entered(old(parents), parents, c, hit)
        invariant forall d :: d in hit ==> d != c && NodeCalls(callees, sccMap, n, d)
        invariant forall q :: 0 <= q < j ==> sccMap[callees[n][q]] in hit + {c}
        invariant outside <==> hit != {}
      {
        assert Edge(callees, n, callees[n][j]);
        var childSCC := sccMap[callees[n][j]];
        if childSCC != c {
          parents := parents[childSCC := parents[childSCC] + {c}];
          outside, hit := true, hit + {childSCC};
        }
        j := j + 1;
      }
      forall d | d != c && NodeCalls(callees, sccMap, n, d) ensures d in hit {
        var v :| Edge(callees, n, v) && v in sccMap && sccMap[v] == d;
        var q :| 0 <= q < |callees[n]| && callees[n][q] == v;
        assert sccMap[callees[n][q]] in hit + {c};
      }
    }

    /** Enters `c` into the parent sets of the SCCs it calls, and says whether there are none. */
    method ConnectToChildren(c: SCC) returns (isLeafSCC: bool, ghost hit: set<SCC>)
      requires c in nodes && forall v :: v in nodes[c] <==> v in sccMap && sccMap[v] == c
      requires forall v :: v in sccMap ==> v in callees && sccMap[v] in parents
      requires forall u, v :: u in sccMap && sccMap[u] == c && Edge(callees, u, v) ==> v in sccMap
      modifies this`parents
      ensures parents.Keys == old(parents).Keys && Entered(old(parents), parents, c, hit)
      ensures forall d :: d in hit <==> d != c && Calls(callees, sccMap, c, d)
      ensures isLeafSCC <==> hit == {}
    {
      hide Entered, NodeCalls, Calls, Hits, Edge;
      isLeafSCC, hit := true, {};
      EnteredNothing(parents, c);
      HitsNone(callees, sccMap, c);
      var i := 0;
      while i < |nodes[c]|
        invariant 0 <= i <= |nodes[c]| && parents.Keys == old(parents).Keys
        invariant Entered(old(parents), parents, c, hit) && Hits(callees, sccMap, c, nodes[c][..i], hit)
        invariant isLeafSCC <==> hit == {}
      {
        var n := nodes[c][i];
        assert n in sccMap && sccMap[n] == c;
        forall v | v in callees[n] ensures v in sccMap && sccMap[v] in parents {
          MemberEdge(callees, n, v);
        }
        ghost var before := parents;
        ghost var more;
        var outside;
        outside, more := ConnectNode(c, n);
        EnteredTwice(old(parents), before, parents, c, hit, more);
        HitsMore(callees, sccMap, c, nodes[c], i, hit, more);
        if outside {
          isLeafSCC := false;
        }
        hit := hit + more;
        i := i + 1;
      }
      HitsAll(callees, sccMap, c, nodes[c], hit);
    }

    /** The loop of FormSCC that pops the stack into the new SCC (LazyCallGraph.cpp:586-591). */
    method PopComponent(newSCC: SCC, rootN: Node, nodeStack: seq<Node>) returns (rest: seq<Node>, ghost s: set<Node>)
      requires Sound(callees, Now()) && newSCC in nodes && Poppable(callees, Now(), rootN, nodeStack)
      modifies this`dfsNumber, this`lowLink, this`sccMap, this`nodes
      ensures |rest| <= |nodeStack| && rest == nodeStack[..|rest|] && newSCC in nodes
      ensures PopsTo(callees, old(Now()), Now(), newSCC, rootN, nodeStack, |rest|, s)
      ensures rest != [] ==> old(dfsNumber)[rest[|rest| - 1]] <= old(dfsNumber)[rootN]
    {
      hide PopsTo, Sound;
      PopNothing(callees, Now(), newSCC, rootN, nodeStack);
      rest, s := nodeStack, {};
      while rest != [] && dfsNumber[rest[|rest| - 1]] > dfsNumber[rootN]
        invariant |rest| <= |nodeStack| && rest == nodeStack[..|rest|]
        invariant dfsNumber.Keys == callees.Keys && newSCC in nodes
        invariant PopsTo(callees, old(Now()), Now(), newSCC, rootN, nodeStack, |rest|, s)
      {
        var n := rest[|rest| - 1];
        PopMore(callees, old(Now()), Now(), newSCC, rootN, nodeStack, |rest|, s);
        rest := rest[..|rest| - 1];
        Insert(newSCC, n);
        s := s + {n};
      }
      if rest != [] {
        PopsKeepNumber(callees, old(Now()), Now(), newSCC, rootN, nodeStack, |rest|, s);
      }
    }

    /** The part of FormSCC that allocates the SCC and fills it (LazyCallGraph.cpp:584-592). */
    method FillSCC(rootN: Node, nodeStack: seq<Node>, ghost a: Area, ghost w: Walk, ghost next: int)
      returns (newSCC: SCC, rest: seq<Node>)
      requires Sound(callees, Now()) && sccCount !in nodes
      requires WalkInv(a, w, next) && AtRoot(a, w) && Top(w) == rootN && w.pending == nodeStack
      requires a.g == callees && w.num == dfsNumber && w.low == lowLink
      modifies this`dfsNumber, this`lowLink, this`sccMap, this`nodes, this`parents, this`sccCount
      ensures newSCC == old(sccCount) && sccCount == newSCC + 1 && parents == old(parents)[newSCC := {}]
      ensures Sound(callees, Now())
      ensures Moved(callees, old(Now()).(nodes := old(nodes)[newSCC := []]), Now(), newSCC, Component(a, w))
      ensures rest <= nodeStack && forall v :: v in rest <==> v in nodeStack && v !in Component(a, w)
      ensures newSCC in nodes && nodes[newSCC] == Backwards(nodeStack[|rest|..]) + [rootN]
    {
      hide Shape, Sound, Moved, Backwards, Poppable, Inserted, PopsTo;
      FormReady(callees, Now(), a, w, sccCount);
      newSCC, sccCount := sccCount, sccCount + 1;
      nodes, parents := nodes[newSCC := []], parents[newSCC := {}];
      ghost var before := Now();
      ghost var s;
      rest, s := PopComponent(newSCC, rootN, nodeStack);
      FormDone(callees, before, Now(), a, w, next, newSCC, |rest|, s);
      Insert(newSCC, rootN);
      assert [] + Backwards(nodeStack[|rest|..]) == Backwards(nodeStack[|rest|..]);
    }

    /** Makes an SCC of the root `rootN` and the nodes above it on the stack (LazyCallGraph.cpp:580-612). */
    method FormSCC(rootN: Node, nodeStack: seq<Node>, ghost a: Area, ghost w: Walk, ghost next: int)
      returns (newSCC: SCC, rest: seq<Node>, ghost hit: set<SCC>)
      requires Sound(callees, Now()) && parents.Keys == nodes.Keys && sccCount !in nodes
      requires WalkInv(a, w, next) && AtRoot(a, w) && Top(w) == rootN && w.pending == nodeStack
      requires a.g == callees && w.num == dfsNumber && w.low == lowLink && a.fin <= sccMap.Keys
      modifies this`dfsNumber, this`lowLink, this`sccMap, this`nodes, this`parents, this`sccCount, this`leafSCCs
      ensures newSCC == old(sccCount) && sccCount == newSCC + 1 && parents.Keys == nodes.Keys
      ensures Sound(callees, Now())
      ensures Moved(callees, old(Now()).(nodes := old(nodes)[newSCC := []]), Now(), newSCC, Component(a, w))
      ensures rest <= nodeStack && forall v :: v in rest <==> v in nodeStack && v !in Component(a, w)
      ensures newSCC in nodes && nodes[newSCC] == Backwards(nodeStack[|rest|..]) + [rootN]
      ensures Entered(old(parents)[newSCC := {}], parents, newSCC, hit)
      ensures forall d :: d in hit <==> d != newSCC && Calls(callees, sccMap, newSCC, d)
      ensures leafSCCs == old(leafSCCs) + if hit == {} then [newSCC] else []
    {
      hide Sound, Moved, WalkInv, AtRoot, Calls, Edge, Shape, Component, Entered, Top;
      ghost var before := Now();
      newSCC, rest := FillSCC(rootN, nodeStack, a, w, next);
      ConnectReady(callees, before, Now(), a, w, next, newSCC);
      var isLeafSCC;
      isLeafSCC, hit := ConnectToChildren(newSCC);
      if isLeafSCC {
        leafSCCs := leafSCCs + [newSCC];
      }
    }

    ghost predicate Valid()
      reads this
    {
      && WellFormed(callees) && Sound(callees, Now())
      && KnownParents(nodes.Keys, parents) && Counted(nodes, sccCount)
      && AllSCCs(callees, sccMap) && LeavesExact(callees, sccMap, leafSCCs)
      && WalkInv(TheArea(), WalkOf(Now(), dfsStack, pendingSCCStack, par), nextDFSNumber)
      && EntriesSeen(callees, dfsNumber, entries, sccEntryNodes)
    }

    ghost function TheArea(): Area
      reads this`callees, this`sccMap
    {
      Area(callees, callees.Keys, sccMap.Keys)
    }

    /** Every node the walk has visited is reachable from an entry node. */
    ghost predicate OnlyFromEntries()
      reads this`callees, this`dfsNumber, this`entries
    {
      VisitedFrom(callees, dfsNumber, entries)
    }

    /** The parents of an SCC are the other SCCs that call it. */
    ghost predicate ParentsExact()
      reads this`callees, this`sccMap, this`nodes, this`parents
    {
      ParentsOf(callees, sccMap, nodes.Keys, parents)
    }

    ghost predicate Walking(n: Node, i: nat)
      reads this
    {
      Sound(callees, Now()) && WellFormed(callees) && n in callees && i <= |callees[n]|
      && WalkInv(TheArea(), WalkOf(Now(), dfsStack + [(n, i)], pendingSCCStack, par), nextDFSNumber)
    }

    /** Visits a callee for the first time (LazyCallGraph.cpp:644-654). */
    method Descend(n: Node, i: nat, childN: Node)
      requires Walking(n, i) && i < |callees[n]| && childN == callees[n][i] && childN in dfsNumber && dfsNumber[childN] == 0
      modifies this`dfsNumber, this`lowLink, this`dfsStack, this`nextDFSNumber, this`par
      ensures Walking(childN, 0) && White(dfsNumber) < old(White(dfsNumber))
      ensures forall num :: VisitsMore(num, old(dfsNumber)) ==> VisitsMore(num, dfsNumber)
      ensures VisitedFrom(callees, old(dfsNumber), entries) ==> VisitedFrom(callees, dfsNumber, entries)
    {
      hide WalkInv, Sound, VisitedFrom, VisitsMore, White;
      ghost var w := WalkOf(Now(), dfsStack + [(n, i)], pendingSCCStack, par);
      assert Edge(callees, n, childN);
      SoundNumbers(callees, Now(), n);
      StepPush(Now(), TheArea(), dfsStack, pendingSCCStack, par, nextDFSNumber, n, i, childN, 0);
      VisitsSame(dfsNumber);
      VisitChild(TheArea(), w, nextDFSNumber, entries, childN, dfsNumber);
      ghost var num1 := dfsNumber[childN := nextDFSNumber];
      forall num | VisitsMore(num, dfsNumber) ensures VisitsMore(num, num1) {
        VisitsTwice(num, dfsNumber, num1);
      }
      dfsStack := dfsStack + [(n, 0)];
      dfsNumber := dfsNumber[childN := nextDFSNumber];
      lowLink := lowLink[childN := nextDFSNumber];
      nextDFSNumber := nextDFSNumber + 1;
      par := par[childN := n];
    }

    /** The inner loop of the walk: descends until the node being visited has no edge left (LazyCallGraph.cpp:638-663). */
    method ScanEdges(n0: Node, i0: nat) returns (n: Node)
      requires Walking(n0, i0)
      modifies this`dfsNumber, this`lowLink, this`dfsStack, this`nextDFSNumber, this`par
      ensures n in callees && Walking(n, |callees[n]|) && VisitsMore(old(dfsNumber), dfsNumber)
      ensures VisitedFrom(callees, old(dfsNumber), entries) ==> VisitedFrom(callees, dfsNumber, entries)
      ensures White(dfsNumber) < old(White(dfsNumber)) || (White(dfsNumber) == old(White(dfsNumber)) && dfsStack == old(dfsStack))
    {
      hide WalkInv, Sound, VisitedFrom, VisitsMore, White;
      n := n0;
      var i: nat := i0;
      VisitsSame(dfsNumber);
      while i < |callees[n]|
        invariant Walking(n, i) && VisitsMore(old(dfsNumber), dfsNumber)
        invariant VisitedFrom(callees, old(dfsNumber), entries) ==> VisitedFrom(callees, dfsNumber, entries)
        invariant White(dfsNumber) < old(White(dfsNumber)) || (White(dfsNumber) == old(White(dfsNumber)) && dfsStack == old(dfsStack))
        decreases White(dfsNumber), |callees[n]| - i
      {
        var childN := callees[n][i];
        EdgeAt(callees, n, i);
        SoundNumbers(callees, Now(), n);
        SoundNumbers(callees, Now(), childN);
        if dfsNumber[childN] == 0 {
          Descend(n, i, childN);
          n, i := childN, 0;
          continue;
        }
        StepAdvance(Now(), TheArea(), dfsStack, pendingSCCStack, par, nextDFSNumber, n, i, childN);
        if lowLink[childN] >= 0 && lowLink[childN] < lowLink[n] {
          lowLink := lowLink[n := lowLink[childN]];
        } else {
          assert lowLink[n := lowLink[n]] == lowLink;
        }
        i := i + 1;
      }
    }

    /** Walks on from edge `i0` of `n0` to the next node that turns out to be the root of an SCC. */
    method WalkToRoot(n0: Node, i0: nat) returns (n: Node)
      requires Walking(n0, i0)
      modifies this`dfsNumber, this`lowLink, this`dfsStack, this`pendingSCCStack, this`nextDFSNumber, this`par
      ensures n in callees && Walking(n, |callees[n]|)
      ensures n in lowLink && n in dfsNumber && lowLink[n] == dfsNumber[n]
      ensures VisitsMore(old(dfsNumber), dfsNumber)
      ensures VisitedFrom(callees, old(dfsNumber), entries) ==> VisitedFrom(callees, dfsNumber, entries)
    {
      hide WalkInv, Sound, VisitedFrom, VisitsMore, White;
      n := n0;
      var i: nat := i0;
      VisitsSame(dfsNumber);
      while true
        invariant Walking(n, i) && VisitsMore(old(dfsNumber), dfsNumber)
        invariant VisitedFrom(callees, old(dfsNumber), entries) ==> VisitedFrom(callees, dfsNumber, entries)
        decreases White(dfsNumber), |dfsStack|
      {
        ghost var before := dfsNumber;
        n := ScanEdges(n, i);
        VisitsTwice(old(dfsNumber), before, dfsNumber);
        SoundNumbers(callees, Now(), n);
        if lowLink[n] == dfsNumber[n] {
          return;
        }
        StepPop(Now(), TheArea(), dfsStack, pendingSCCStack, par, nextDFSNumber, n, |callees[n]|);
        pendingSCCStack := pendingSCCStack + [n];
        TopEdge(TheArea(), Now(), dfsStack, pendingSCCStack, par, nextDFSNumber);
        TopOff(dfsStack);
        n, i := dfsStack[|dfsStack| - 1].0, dfsStack[|dfsStack| - 1].1;
        dfsStack := dfsStack[..|dfsStack| - 1];
      }
    }

    /** Starts the walk at an entry node that has not been visited (LazyCallGraph.cpp:620-632). */
    method StartAtEntry() returns (r: Option<Node>)
      requires Valid() && dfsStack == []
      modifies this`sccEntryNodes, this`dfsNumber, this`lowLink, this`nextDFSNumber
      ensures r.None? ==> Valid() && entries <= sccMap.Keys && dfsNumber == old(dfsNumber)
      ensures r.Some? ==> Walking(r.value, 0)
      ensures EntriesSeen(callees, dfsNumber, entries, sccEntryNodes)
      ensures VisitedFrom(callees, old(dfsNumber), entries) ==> VisitedFrom(callees, dfsNumber, entries)
    {
      hide WalkInv, Sound, AllSCCs, LeavesExact, VisitedFrom, EntriesSeen, WellFormed, KnownParents, Counted;
      var n := 0;
      while true
        invariant Valid() && dfsNumber == old(dfsNumber)
        decreases |sccEntryNodes|
      {
        if sccEntryNodes == [] {
          EntriesDone(Now(), TheArea(), WalkOf(Now(), dfsStack, pendingSCCStack, par), nextDFSNumber, entries);
          return None;
        }
        EntryPopped(Now(), callees, entries, sccEntryNodes);
        EntryStarted(Now(), callees, entries, sccEntryNodes);
        n := sccEntryNodes[|sccEntryNodes| - 1];
        sccEntryNodes := sccEntryNodes[..|sccEntryNodes| - 1];
        if dfsNumber[n] == 0 {
          break;
        }
      }
      StepStart(Now(), TheArea(), pendingSCCStack, par, nextDFSNumber, n);
      dfsNumber, lowLink, nextDFSNumber := dfsNumber[n := 1], lowLink[n := 1], 2;
      assert dfsStack + [(n, 0)] == [(n, 0)];
      return Some(n);
    }

    /** Takes up the walk where it stopped, or starts it again at an entry node (LazyCallGraph.cpp:615-632). */
    method PickNode() returns (r: Option<(Node, nat)>)
      requires Valid()
      modifies this`dfsStack, this`sccEntryNodes, this`dfsNumber, this`lowLink, this`nextDFSNumber
      ensures r.None? ==> Valid() && entries <= sccMap.Keys && dfsNumber == old(dfsNumber)
      ensures r.Some? ==> Walking(r.value.0, r.value.1)
      ensures EntriesSeen(callees, dfsNumber, entries, sccEntryNodes)
      ensures VisitedFrom(callees, old(dfsNumber), entries) ==> VisitedFrom(callees, dfsNumber, entries)
    {
      hide WalkInv, Sound, AllSCCs, LeavesExact, VisitedFrom, EntriesSeen, WellFormed, KnownParents, Counted, WalkOf;
      if dfsStack != [] {
        var top := dfsStack[|dfsStack| - 1];
        TopOff(dfsStack);
        TopEdge(TheArea(), Now(), dfsStack, pendingSCCStack, par, nextDFSNumber);
        dfsStack := dfsStack[..|dfsStack| - 1];
        return Some(top);
      }
      var n := StartAtEntry();
      r := if n.None? then None else Some((n.value, 0));
    }

    /** What holds besides the walk itself while it goes on. */
    ghost predicate Settled()
      reads this
    {
      && KnownParents(nodes.Keys, parents) && Counted(nodes, sccCount)
      && AllSCCs(callees, sccMap) && LeavesExact(callees, sccMap, leafSCCs)
      && EntriesSeen(callees, dfsNumber, entries, sccEntryNodes)
    }

    /** Forms the SCC of a root the walk has found (LazyCallGraph.cpp:665-667). */
    method FormFound(root: Node) returns (newSCC: SCC)
      requires Settled() && root in callees && Walking(root, |callees[root]|)
      requires root in lowLink && root in dfsNumber && lowLink[root] == dfsNumber[root]
      modifies this`dfsNumber, this`lowLink, this`sccMap, this`nodes, this`parents, this`sccCount, this`leafSCCs, this`pendingSCCStack
      ensures Valid() && Grew(old(Now()), Now(), newSCC)
      ensures VisitedFrom(callees, old(dfsNumber), entries) ==> VisitedFrom(callees, dfsNumber, entries)
      ensures old(ParentsExact()) ==> ParentsExact()
    {
      hide WalkInv, Sound, AllSCCs, LeavesExact, VisitedFrom, EntriesSeen, WellFormed, ParentsOf, Entered, Moved, Grew, AtRoot, Shape, Calls, Edge, Component, KnownParents, Counted, WalkOf, Firsts, Seconds;
      CountedFresh(nodes, sccCount);
      KnownKeys(nodes.Keys, parents);
      ghost var w := WalkOf(Now(), dfsStack + [(root, |callees[root]|)], pendingSCCStack, par);
      ghost var t, a, was := Now(), TheArea(), parents;
      WalkParts(t, dfsStack, root, |callees[root]|, pendingSCCStack, par);
      RootReached(a, w, nextDFSNumber);
      var rest;
      ghost var hit;
      newSCC, rest, hit := FormSCC(root, pendingSCCStack, a, w, nextDFSNumber);
      pendingSCCStack := rest;
      FormedState(t, Now(), a, dfsStack, root, w, nextDFSNumber, newSCC, rest, entries, sccEntryNodes, hit, was, parents, old(leafSCCs));
      CountedMore(t.nodes, newSCC, nodes);
    }

    /** Walks on to the next root of an SCC, if there is one (LazyCallGraph.cpp:615-663). */
    method FindRoot() returns (root: Option<Node>)
      requires Valid()
      modifies this`dfsStack, this`pendingSCCStack, this`sccEntryNodes, this`dfsNumber, this`lowLink, this`nextDFSNumber, this`par
      ensures root.None? ==> Valid() && entries <= sccMap.Keys && dfsNumber == old(dfsNumber)
      ensures root.Some? ==> Settled() && root.value in callees && Walking(root.value, |callees[root.value]|)
      ensures root.Some? ==> root.value in lowLink && root.value in dfsNumber && lowLink[root.value] == dfsNumber[root.value]
      ensures VisitedFrom(callees, old(dfsNumber), entries) ==> VisitedFrom(callees, dfsNumber, entries)
    {
      hide WalkInv, Sound, AllSCCs, LeavesExact, VisitedFrom, VisitsMore, EntriesSeen, WellFormed, KnownParents, Counted, WalkOf;
      var start := PickNode();
      if start.None? {
        return None;
      }
      ghost var num := dfsNumber;
      var n := WalkToRoot(start.value.0, start.value.1);
      VisitsSeen(callees, num, dfsNumber, entries, sccEntryNodes);
      root := Some(n);
    }

    /** The next SCC in post-order, or None at the end of the walk (LazyCallGraph.cpp:614-681). */
    method GetNextSCCInPostOrder() returns (r: Option<SCC>)
      requires Valid()
      modifies this
      ensures Valid() && callees == old(callees) && entries == old(entries)
      ensures old(OnlyFromEntries()) ==> OnlyFromEntries()
      ensures old(ParentsExact()) ==> ParentsExact()
      ensures r.None? ==> sccMap == old(sccMap) && nodes == old(nodes) && parents == old(parents) && entries <= sccMap.Keys
      ensures r.Some? ==> Grew(old(Now()), Now(), r.value)
      ensures ListsExact(sccMap, nodes) && NoRepeats(leafSCCs)
    {
      hide WalkInv, Sound, AllSCCs, LeavesExact, VisitedFrom, EntriesSeen, WellFormed, Grew, ParentsOf, KnownParents, Counted, WalkOf, ListsExact, NoRepeats;
      var root := FindRoot();
      if root.None? {
        OnceEach(callees, Now(), leafSCCs);
        return None;
      }
      ghost var t := Now();
      var newSCC := FormFound(root.value);
      GrewOnly(old(Now()), t, Now(), newSCC);
      OnceEach(callees, Now(), leafSCCs);
      return Some(newSCC);
    }

    /** The range postorder_sccs of include/llvm/Analysis/LazyCallGraph.h:406-409, walked to its end. */
    method PostOrderSCCs() returns (sccs: seq<SCC>)
      requires Valid() && OnlyFromEntries() && sccMap == map[] && nodes == map[]
      modifies this
      ensures Valid() && callees == old(callees) && entries == old(entries)
      ensures forall v :: v in sccMap <==> FromEntry(callees, entries, v)
      ensures forall k :: 0 <= k < |sccs| ==> IsSCC(callees, Members(sccMap, sccs[k]))
      ensures forall j, k :: 0 <= j < k < |sccs| ==> sccs[j] != sccs[k]
      ensures PostOrdered(callees, sccMap, sccs) && forall v :: v in sccMap ==> sccMap[v] in sccs
      ensures ListsExact(sccMap, nodes) && NoRepeats(leafSCCs)
    {
      hide WalkInv, Sound, AllSCCs, LeavesExact, VisitedFrom, VisitsMore, EntriesSeen, WellFormed, Grew, ParentsOf, PostOrdered, Enumerated, IsSCC, Reach, Closed, ListsExact, NoRepeats;
      sccs := [];
      EnumeratedNothing(callees, Now());
      while true
        invariant Valid() && OnlyFromEntries() && callees == old(callees) && entries == old(entries)
        invariant Enumerated(callees, Now(), sccs)
        decreases callees.Keys - sccMap.Keys
      {
        ghost var t := Now();
        var next := GetNextSCCInPostOrder();
        SCCsClosed(TheArea(), WalkOf(Now(), dfsStack, pendingSCCStack, par), nextDFSNumber);
        if next.None? {
          EnumeratedSame(callees, t, Now(), sccs);
          break;
        }
        EnumeratedMore(callees, t, Now(), next.value, sccs);
        sccs := sccs + [next.value];
      }
      ReachedFromEntries(callees, Now(), entries);
      EnumeratedAll(callees, Now(), sccs);
      OnceEach(callees, Now(), leafSCCs);
    }

    // -------------------------------------------------------------- removing an edge inside an SCC

    /** Takes `callee` off the callees of `n` (LazyCallGraph.cpp:91-98). */
    method RemoveEdgeInternal(n: Node, callee: Node)
      requires Edge(callees, n, callee)
      requires forall i, j :: 0 <= i < j < |callees[n]| ==> callees[n][i] != callees[n][j]
      modifies this`callees
      ensures EdgeRemoved(old(callees), callees, n, callee)
    {
      var k := 0;
      while callees[n][k] != callee
        invariant 0 <= k < |callees[n]| && forall j :: 0 <= j < k ==> callees[n][j] != callee
        decreases |callees[n]| - k
      {
        var j :| 0 <= j < |callees[n]| && callees[n][j] == callee;
        k := k + 1;
      }
      var rest := callees[n][..k] + callees[n][k + 1..];
      forall b ensures b in rest <==> b in callees[n] && b != callee {
        if b in callees[n] && b != callee {
          var j :| 0 <= j < |callees[n]| && callees[n][j] == b;
          assert b == rest[if j < k then j else j - 1];
        }
      }
      callees := callees[n := rest];
    }

    /** Empties SCC `c`; its nodes are in no SCC and not visited (LazyCallGraph.cpp:470-477). */
    method ResetNodes(c: SCC) returns (worklist: seq<Node>)
      requires Sound(callees, Now()) && c in nodes
      modifies this`dfsNumber, this`lowLink, this`sccMap, this`nodes
      ensures worklist == old(nodes)[c] && Reset(callees, old(Now()), Now(), c, Elements(worklist))
    {
      hide Reset, Sound, Elements;
      ListedInGraph(callees, Now(), c);
      ResetNone(callees, Now(), c);
      worklist := nodes[c];
      NoElements(worklist);
      nodes := nodes[c := []];
      ghost var s: set<Node> := {};
      for k := 0 to |worklist|
        invariant s == Elements(worklist[..k])
        invariant Reset(callees, old(Now()), Now(), c, s)
      {
        var n := worklist[k];
        ResetMore(callees, old(Now()), Now(), c, s, n);
        dfsNumber := dfsNumber[n := 0];
        lowLink := lowLink[n := 0];
        sccMap := sccMap - {n};
        s := s + {n};
        ElementsNext(worklist, k);
      }
    }

    /** Pops `stack` into SCC `c` (LazyCallGraph.cpp:398-401). */
    method InsertAll(c: SCC, stack: seq<Node>)
      requires c in nodes && Sound(callees, Now()) && Unplaced(callees, Now(), stack)
      modifies this`dfsNumber, this`lowLink, this`sccMap, this`nodes
      ensures c in nodes && Sound(callees, Now()) && Moved(callees, old(Now()), Now(), c, Elements(stack))
    {
      hide Sound, Moved, Unplaced, InsertedFrom;
      var rest := stack;
      ghost var s: set<Node> := {};
      InsertNone(callees, Now(), c, stack);
      while rest != []
        invariant |rest| <= |stack| && rest == stack[..|rest|] && c in nodes
        invariant InsertedFrom(callees, old(Now()), Now(), c, stack, |rest|, s)
      {
        var n := rest[|rest| - 1];
        InsertMore(callees, old(Now()), Now(), c, stack, |rest|, s);
        rest := rest[..|rest| - 1];
        Insert(c, n);
        s := s + {n};
      }
      InsertDone(callees, old(Now()), Now(), c, stack, s);
    }

    ghost predicate Mending(x: Repair, stack: seq<(Node, nat)>, pending: seq<Node>, par: map<Node, Node>, next: int,
                            results: seq<SCC>, erased: set<SCC>)
      reads this
    {
      && callees == x.g && Counted(nodes, sccCount)
      && Repairing(x, Now(), WalkOf(Now(), stack, pending, par), next, results, parents, leafSCCs, erased)
    }

    /** The inner loop of internalDFS, up to a node of `c` or to the last edge of a node (LazyCallGraph.cpp:390-433). */
    method RepairScan(c: SCC, n0: Node, i0: nat, stack0: seq<(Node, nat)>, pending: seq<Node>, next0: int,
                      ghost x: Repair, ghost par0: map<Node, Node>, ghost results: seq<SCC>, ghost erased0: set<SCC>)
      returns (met: bool, n: Node, i: nat, stack: seq<(Node, nat)>, next: int, ghost par1: map<Node, Node>, ghost erased: set<SCC>)
      requires c == x.c && n0 in x.comp && n0 in callees && i0 <= |callees[n0]|
      requires Mending(x, stack0 + [(n0, i0)], pending, par0, next0, results, erased0)
      modifies this`dfsNumber, this`lowLink, this`parents
      ensures n in x.comp && n in callees && i <= |callees[n]|
      ensures Mending(x, stack + [(n, i)], pending, par1, next, results, erased)
      ensures met ==> i < |callees[n]| && callees[n][i] in sccMap && sccMap[callees[n][i]] == c
      ensures !met ==> i == |callees[n]|
      ensures VisitsMore(old(dfsNumber), dfsNumber)
      ensures White(dfsNumber) < old(White(dfsNumber)) || (White(dfsNumber) == old(White(dfsNumber)) && stack == stack0)
    {
      hide Repaired, WalkInv, Erased, VisitsMore, White, NewLow, RepairArea, Edge;
      met, n, i, stack, next := false, n0, i0, stack0, next0;
      par1, erased := par0, erased0;
      VisitsSame(dfsNumber);
      while i < |callees[n]|
        invariant n in x.comp && n in callees && i <= |callees[n]|
        invariant Mending(x, stack + [(n, i)], pending, par1, next, results, erased)
        invariant VisitsMore(old(dfsNumber), dfsNumber)
        invariant White(dfsNumber) < old(White(dfsNumber)) || (White(dfsNumber) == old(White(dfsNumber)) && stack == stack0)
        decreases White(dfsNumber), |callees[n]| - i
      {
        var childN := callees[n][i];
        EdgeAt(callees, n, i);
        InRepair(x, Now(), results, parents, leafSCCs, n);
        ChildInRepair(x, Now(), results, parents, leafSCCs, n, childN);
        if childN in sccMap {
          var childSCC := sccMap[childN];
          if childSCC == c {
            met := true;
            return;
          }
          RepairOther(x, Now(), stack, pending, par1, next, results, parents, parents[childSCC := parents[childSCC] - {c}],
                      leafSCCs, erased, n, i, childN, childSCC);
          parents := parents[childSCC := parents[childSCC] - {c}];
          erased := erased + {childSCC};
          i := i + 1;
          continue;
        }
        if dfsNumber[childN] == 0 {
          RepairPush(x, Now(), stack, pending, par1, next, results, parents, leafSCCs, erased, n, i, childN);
          NextPositive(x, Now(), WalkOf(Now(), stack + [(n, i)], pending, par1), next, results, parents, leafSCCs, erased);
          VisitsOne(old(dfsNumber), dfsNumber, childN, next);
          stack := stack + [(n, i)];
          dfsNumber := dfsNumber[childN := next];
          lowLink := lowLink[childN := next];
          par1 := par1[childN := n];
          next := next + 1;
          n, i := childN, 0;
          continue;
        }
        RepairOld(x, Now(), Now().(low := lowLink[n := NewLow(Now(), n, childN)]), stack, pending, par1, next, results, parents,
                  leafSCCs, erased, n, i, childN);
        LowChanged(Now(), n, childN);
        if lowLink[childN] >= 0 && lowLink[childN] < lowLink[n] {
          lowLink := lowLink[n := lowLink[childN]];
        }
        i := i + 1;
      }
    }

    /** The walk has met `c`: the node being visited and both stacks go into it (LazyCallGraph.cpp:396-403). */
    method DropStacks(c: SCC, n: Node, i: nat, stack: seq<(Node, nat)>, pending: seq<Node>, ghost next: int,
                      ghost x: Repair, ghost par1: map<Node, Node>, ghost results: seq<SCC>, ghost erased: set<SCC>)
      requires c == x.c && n in callees && i < |callees[n]| && callees[n][i] in sccMap && sccMap[callees[n][i]] == c
      requires Mending(x, stack + [(n, i)], pending, par1, next, results, erased)
      modifies this`dfsNumber, this`lowLink, this`sccMap, this`nodes
      ensures Mending(x, [], [], par1, next, results, erased) && VisitsMore(old(dfsNumber), dfsNumber)
    {
      hide Repairing, Sound, Unplaced, Moved, VisitsMore, Walked;
      ghost var t, w := Now(), WalkOf(Now(), stack + [(n, i)], pending, par1);
      StacksUnplaced(x, t, stack, n, i, pending, par1, next, results, parents, leafSCCs, erased);
      UnplacedParts(callees, t, n, pending, Firsts(stack));
      InsertAll(c, [n]);
      ghost var t1 := Now();
      UnplacedAfter(callees, t, t1, c, [n], pending + Firsts(stack));
      UnplacedApart(callees, t1, pending, Firsts(stack));
      InsertAll(c, pending);
      ghost var t2 := Now();
      UnplacedAfter(callees, t1, t2, c, pending, Firsts(stack));
      InsertAll(c, Firsts(stack));
      MovedMore(callees, t, t1, t2, c, Elements([n]), Elements(pending));
      MovedMore(callees, t, t2, Now(), c, Elements([n]) + Elements(pending), Elements(Firsts(stack)));
      VisitsMoved(callees, t, Now(), c, Elements([n]) + Elements(pending) + Elements(Firsts(stack)));
      EdgeAt(callees, n, i);
      RepairDrop(x, t, Now(), w, next, results, parents, leafSCCs, erased, callees[n][i]);
    }

    /** Forms an SCC of a root the repair has found, and lists it (LazyCallGraph.cpp:435-436). */
    method FormSplit(n: Node, stack: seq<(Node, nat)>, pending: seq<Node>, results: seq<SCC>, ghost next: int,
                     ghost x: Repair, ghost par1: map<Node, Node>, ghost erased: set<SCC>)
      returns (rest: seq<Node>, results1: seq<SCC>)
      requires n in callees && n in lowLink && n in dfsNumber && lowLink[n] == dfsNumber[n]
      requires Mending(x, stack + [(n, |callees[n]|)], pending, par1, next, results, erased)
      modifies this`dfsNumber, this`lowLink, this`sccMap, this`nodes, this`parents, this`sccCount, this`leafSCCs
      ensures Mending(x, stack, rest, par1, next, results1, erased) && VisitsMore(old(dfsNumber), dfsNumber)
    {
      hide Repairing, Sound, Moved, VisitsMore, White, AtRoot, Component, Calls, Entered, WalkInv;
      ghost var t, w, was, leaves := Now(), WalkOf(Now(), stack + [(n, |callees[n]|)], pending, par1), parents, leafSCCs;
      ghost var a := RepairArea(x, t.sccMap, results);
      SplitReady(x, t, w, next, results, parents, leafSCCs, erased);
      var r;
      ghost var hit;
      r, rest, hit := FormSCC(n, pending, a, w, next);
      results1 := results + [r];
      SplitShape(x, t, w, next, results, was, leaves, erased);
      VisitsFormed(callees, t, Now(), r, Component(a, w));
      MovedKeys(t, Now(), callees, r, Component(a, w));
      RepairForm(x, t, Now(), stack, w, next, results, was, parents, leaves, leafSCCs, erased, n, r, rest, hit);
    }

    /** The walk is done with the edges of `n`: a root becomes an SCC, another node waits (LazyCallGraph.cpp:435-447). */
    method CloseNode(n: Node, stack: seq<(Node, nat)>, pending: seq<Node>, results: seq<SCC>, ghost next: int,
                     ghost x: Repair, ghost par1: map<Node, Node>, ghost erased: set<SCC>)
      returns (rest: seq<Node>, results1: seq<SCC>)
      requires n in x.comp && n in callees
      requires Mending(x, stack + [(n, |callees[n]|)], pending, par1, next, results, erased)
      modifies this`dfsNumber, this`lowLink, this`sccMap, this`nodes, this`parents, this`sccCount, this`leafSCCs
      ensures Mending(x, stack, rest, par1, next, results1, erased) && (stack == [] ==> rest == [])
      ensures VisitsMore(old(dfsNumber), dfsNumber)
    {
      hide Repairing, VisitsMore, WalkInv, Counted;
      VisitsSame(dfsNumber);
      TopInComp(x, Now(), WalkOf(Now(), stack + [(n, |callees[n]|)], pending, par1), next, results, parents, leafSCCs, erased);
      if lowLink[n] == dfsNumber[n] {
        rest, results1 := FormSplit(n, stack, pending, results, next, x, par1, erased);
        if stack == [] {
          PendingFlushed(x, Now(), WalkOf(Now(), stack, rest, par1), next, results1, parents, leafSCCs, erased);
        }
      } else {
        RepairPop(x, Now(), stack, pending, par1, next, results, parents, leafSCCs, erased, n, |callees[n]|);
        rest, results1 := pending + [n], results;
      }
    }

    /** Walks from `n0` until its whole stack has been placed, in `c` or in new SCCs (LazyCallGraph.cpp:377-454). */
    method InternalDFS(c: SCC, n0: Node, results0: seq<SCC>, ghost x: Repair, ghost par0: map<Node, Node>,
                       ghost next0: int, ghost erased0: set<SCC>)
      returns (results: seq<SCC>, ghost par1: map<Node, Node>, ghost next1: int, ghost erased: set<SCC>)
      requires c == x.c && n0 in x.comp && n0 in dfsNumber && dfsNumber[n0] == 0
      requires Mending(x, [], [], par0, next0, results0, erased0)
      modifies this`dfsNumber, this`lowLink, this`sccMap, this`nodes, this`parents, this`sccCount, this`leafSCCs
      ensures Mending(x, [], [], par1, next1, results, erased)
      ensures VisitsMore(old(dfsNumber), dfsNumber) && n0 in dfsNumber && dfsNumber[n0] != 0
    {
      hide Repairing, VisitsMore, White, WalkInv, Counted;
      RepairStart(x, Now(), [], par0, next0, results0, parents, leafSCCs, erased0, n0);
      VisitsOne(dfsNumber, dfsNumber, n0, 1) by { VisitsSame(dfsNumber); }
      var n, i: nat, stack, pending, next := n0, 0, [], [], 2;
      results, par1, erased, next1 := results0, par0, erased0, 2;
      dfsNumber, lowLink := dfsNumber[n0 := 1], lowLink[n0 := 1];
      assert stack + [(n, i)] == [(n0, 0)];
      TopInComp(x, Now(), WalkOf(Now(), stack + [(n, i)], pending, par1), next, results, parents, leafSCCs, erased);
      ghost var num0 := dfsNumber;
      VisitsSame(num0);
      while true
        invariant Mending(x, stack + [(n, i)], pending, par1, next, results, erased)
        invariant n in x.comp && n in callees && i <= |callees[n]|
        invariant VisitsMore(old(dfsNumber), dfsNumber) && VisitsMore(num0, dfsNumber)
        decreases White(dfsNumber), |stack|
      {
        ghost var num1, depth := dfsNumber, |stack|;
        var met;
        met, n, i, stack, next, par1, erased := RepairScan(c, n, i, stack, pending, next, x, par1, results, erased);
        VisitsTwice(old(dfsNumber), num1, dfsNumber);
        VisitsTwice(num0, num1, dfsNumber);
        ghost var num2 := dfsNumber;
        if met {
          DropStacks(c, n, i, stack, pending, next, x, par1, results, erased);
          VisitsTwice(old(dfsNumber), num2, dfsNumber);
          VisitsTwice(num0, num2, dfsNumber);
          next1 := next;
          return;
        }
        pending, results := CloseNode(n, stack, pending, results, next, x, par1, erased);
        VisitsTwice(old(dfsNumber), num2, dfsNumber);
        VisitsTwice(num0, num2, dfsNumber);
        VisitsWhite(num2, dfsNumber);
        if stack == [] {
          next1 := next;
          return;
        }
        TopInComp(x, Now(), WalkOf(Now(), stack, pending, par1), next, results, parents, leafSCCs, erased);
        TopOff(stack);
        n, i := stack[|stack| - 1].0, stack[|stack| - 1].1;
        stack := stack[..|stack| - 1];
      }
    }

    /** The part of removeIntraSCCEdge before the walk (LazyCallGraph.cpp:470-487). */
    method StartRepair(c: SCC, callee: Node, ghost x: Repair, ghost par0: map<Node, Node>) returns (worklist: seq<Node>)
      requires Setting(x) && x.before == Now() && x.c == c && x.callee == callee && callees == x.g
      requires x.was == parents && x.leaves == leafSCCs && c in nodes && Counted(nodes, sccCount)
      modifies this`dfsNumber, this`lowLink, this`sccMap, this`nodes
      ensures Mending(x, [], [], par0, 1, [], {}) && forall v :: v in worklist <==> v in x.comp
    {
      hide Setting, Reset, Sound, Repairing;
      SettingSound(x);
      ListedInGraph(callees, Now(), c);
      worklist := ResetNodes(c);
      ResetSound(x.g, x.before, Now(), c);
      ghost var t := Now();
      Insert(c, callee);
      RepairBegin(x, t, Now(), par0, 1);
      assert Firsts([]) == [] && Seconds([]) == [];
    }

    /** The walks of removeIntraSCCEdge (LazyCallGraph.cpp:490-499). */
    method RunRepair(c: SCC, worklist0: seq<Node>, ghost x: Repair, ghost par0: map<Node, Node>)
      returns (results: seq<SCC>, ghost par1: map<Node, Node>, ghost next1: int, ghost erased: set<SCC>)
      requires c == x.c && Mending(x, [], [], par0, 1, [], {}) && forall v :: v in worklist0 <==> v in x.comp
      modifies this`dfsNumber, this`lowLink, this`sccMap, this`nodes, this`parents, this`sccCount, this`leafSCCs
      ensures Mending(x, [], [], par1, next1, results, erased)
      ensures Complete(x, sccMap, results) && sccMap.Keys == x.before.sccMap.Keys
    {
      hide Repairing, Complete, VisitsMore;
      var worklist := worklist0;
      results, par1, next1, erased := [], par0, 1, {};
      CompVisited(x, Now(), WalkOf(Now(), [], [], par1), next1, results, parents, leafSCCs, erased);
      while worklist != []
        invariant Mending(x, [], [], par1, next1, results, erased)
        invariant x.comp <= dfsNumber.Keys && forall v :: v in worklist ==> v in x.comp
        invariant forall v :: v in x.comp && v !in worklist ==> dfsNumber[v] != 0
      {
        ghost var num, was := dfsNumber, worklist;
        var n := worklist[|worklist| - 1];
        worklist := worklist[..|worklist| - 1];
        assert was == worklist + [n];
        if dfsNumber[n] == 0 {
          results, par1, next1, erased := InternalDFS(c, n, results, x, par1, next1, erased);
          VisitsStay(num, dfsNumber);
        }
      }
      AllPlaced(x, Now(), WalkOf(Now(), [], [], par1), next1, results, parents, leafSCCs, erased);
    }

    /** Links what is left of `c` again after the walks (LazyCallGraph.cpp:501-525). */
    method Reconnect(c: SCC, results: seq<SCC>, ghost x: Repair, ghost par1: map<Node, Node>, ghost next1: int, ghost erased: set<SCC>)
      returns (ghost hit: set<SCC>)
      requires c == x.c && Mending(x, [], [], par1, next1, results, erased) && Complete(x, sccMap, results)
      modifies this`parents, this`leafSCCs
      ensures KnownParents(nodes.Keys, parents) && Entered(old(parents), parents, c, hit)
      ensures forall d :: d in hit <==> d != c && Calls(callees, sccMap, c, d)
      ensures forall d :: d in leafSCCs <==> d in old(leafSCCs) && !(d == c && results != [] && !IsLeaf(callees, sccMap, c))
      ensures NoRepeats(old(leafSCCs)) ==> NoRepeats(leafSCCs)
      ensures leafSCCs == if results != [] && !IsLeaf(callees, sccMap, c) then Without(old(leafSCCs), c) else old(leafSCCs)
    {
      hide Repairing, Complete, Repaired, Entered, Calls, IsLeaf, KnownParents, Edge;
      ghost var parents1 := parents;
      RepairingParts(x, Now(), WalkOf(Now(), [], [], par1), next1, results, parents, leafSCCs, erased);
      ConnectKept(x, Now(), results, parents, leafSCCs);
      KnownRepaired(x, Now(), results, parents, leafSCCs);
      var isLeafSCC;
      isLeafSCC, hit := ConnectToChildren(c);
      if !isLeafSCC && results != [] {
        if NoRepeats(leafSCCs) {
          WithoutRepeats(leafSCCs, c);
        }
        leafSCCs := Without(leafSCCs, c);
      }
      LeafIfNoHit(callees, sccMap, c, hit);
      KnownEntered(nodes.Keys, parents1, parents, c, hit);
    }

    /** The part of removeIntraSCCEdge after the edge has been taken off (LazyCallGraph.cpp:469-528). */
    method SplitSCC(c: SCC, callee: Node, ghost x: Repair, ghost g: Graph, ghost caller: Node) returns (results: seq<SCC>)
      requires Setting(x) && x.before == Now() && x.c == c && x.callee == callee && callees == x.g
      requires x.was == parents && x.leaves == leafSCCs && c in nodes && Counted(nodes, sccCount)
      requires WasValid(x, g, caller, dfsStack, pendingSCCStack, par, nextDFSNumber, entries, sccEntryNodes)
      modifies this`dfsNumber, this`lowLink, this`sccMap, this`nodes, this`parents, this`sccCount, this`leafSCCs
      ensures Valid()
      ensures SplitOff(callees, x.before.sccMap, sccMap, c, callee, results)
      ensures Relinked(g, callees, x.before.sccMap, sccMap, x.was, parents, c, results)
      ensures nodes.Keys == x.before.nodes.Keys + Elements(results) && Elements(results) !! x.before.nodes.Keys
    {
      hide WalkInv, Sound, AllSCCs, LeavesExact, EntriesSeen, WellFormed, Repairing, Setting, Complete, Repaired, Entered, Calls, WasValid,
        SplitOff, Relinked, IsLeaf, KnownParents, WalkOf;
      var worklist := StartRepair(c, callee, x, par);
      ghost var par1, next1, erased;
      results, par1, next1, erased := RunRepair(c, worklist, x, par);
      ghost var parents1, leaves1 := parents, leafSCCs;
      ghost var hit := Reconnect(c, results, x, par1, next1, erased);
      SplitDone(x, Now(), g, caller, WalkOf(Now(), [], [], par1), next1, results, parents1, parents, leaves1, leafSCCs, hit, erased,
                dfsStack, pendingSCCStack, par, nextDFSNumber, entries, sccEntryNodes);
    }

    /**
     Removes the edge from `caller` to `callee` inside SCC `c` and returns the SCCs that are split off `c`,
     in post-order; what is left of `c` leads to all of them (LazyCallGraph.cpp:456-529).
     */
    method RemoveIntraSCCEdge(c: SCC, caller: Node, callee: Node) returns (results: seq<SCC>)
      requires Valid() && Edge(callees, caller, callee)
      requires caller in sccMap && callee in sccMap && sccMap[caller] == c && sccMap[callee] == c
      requires forall i, j :: 0 <= i < j < |callees[caller]| ==> callees[caller][i] != callees[caller][j]
      modifies this
      ensures Valid() && entries == old(entries) && EdgeRemoved(old(callees), callees, caller, callee)
      ensures caller == callee ==> results == [] && sccMap == old(sccMap) && parents == old(parents) && leafSCCs == old(leafSCCs)
      ensures caller != callee ==> SplitOff(callees, old(sccMap), sccMap, c, callee, results)
      ensures caller != callee ==> forall v :: v in sccMap && sccMap[v] in results ==> Reach(callees, callee, v)
      ensures caller != callee ==> Relinked(old(callees), callees, old(sccMap), sccMap, old(parents), parents, c, results)
      ensures nodes.Keys == old(nodes).Keys + Elements(results) && Elements(results) !! old(nodes).Keys
      ensures ListsExact(sccMap, nodes) && NoRepeats(leafSCCs)
    {
      hide WalkInv, Sound, AllSCCs, LeavesExact, EntriesSeen, WellFormed, EdgeRemoved, Setting, Below, SplitOff, Relinked, KnownParents, Reach, ListsExact, NoRepeats;
      ghost var g, comp := callees, Members(sccMap, c);
      RemoveEdgeInternal(caller, callee);
      results := [];
      if caller == callee {
        SelfOutcome(g, callees, caller, Now(), WalkOf(Now(), dfsStack, pendingSCCStack, par), nextDFSNumber, entries, sccEntryNodes, leafSCCs);
        OnceEach(callees, Now(), leafSCCs);
        return;
      }
      ghost var x := Repair(callees, c, callee, comp, Below(g, comp), Now(), parents, leafSCCs);
      RemovalSetting(x, g, caller, WalkOf(Now(), dfsStack, pendingSCCStack, par), nextDFSNumber);
      results := SplitSCC(c, callee, x, g, caller);
      KeptIsRoot(g, callees, caller, x.before.sccMap, sccMap, c, callee, results);
      OnceEach(callees, Now(), leafSCCs);
    }
  }
}
