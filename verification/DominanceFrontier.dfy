/**
 lib/Analysis/DominanceFrontier.cpp: the dominance frontiers of all blocks of a subtree of the dominator
 tree, computed bottom-up with an explicit stack.  A frontier is defined by paths; `Progress` is the state
 of the walk, whose two kinds of steps, `Visit` and `Leave`, keep `Walking`.  The class at the end performs
 the steps.
 */
module DominanceFrontiers {
  import opened Digraph
  import opened Dominance
  import opened Wrappers

  /** `x` dominates a predecessor of `y` and does not strictly dominate `y`. */
  ghost predicate InFrontier(g: Graph, entry: Node, x: Node, y: Node) {
    !StrictlyDominates(g, entry, x, y) && exists p :: Edge(g, p, y) && Dominates(g, entry, x, p)
  }

  ghost predicate IsLocal(g: Graph, t: DomTree, x: Node, y: Node) {
    Edge(g, x, y) && !(y in t.idom && t.idom[y] == x)
  }

  /** `y` comes into the frontier of `x` from its child `c`. */
  ghost predicate ComesUp(g: Graph, t: DomTree, x: Node, c: Node, y: Node) {
    InFrontier(g, t.root, c, y) && !StrictlyDominates(g, t.root, x, y)
  }

  lemma SuccessorInTree(g: Graph, t: DomTree, x: Node, y: Node)
    requires IsDomTree(g, t) && x in t.children && Edge(g, x, y)
    ensures y in t.children
  {
    ReachEdge(g, x, y);
    ReachTrans(g, t.root, x, y);
  }

  lemma LocalInFrontier(g: Graph, t: DomTree, x: Node, y: Node)
    requires IsDomTree(g, t) && x in t.children && IsLocal(g, t, x, y)
    ensures InFrontier(g, t.root, x, y)
  {
    OwnDominator(g, t, x);
    SuccessorInTree(g, t, x, y);
    if StrictlyDominates(g, t.root, x, y) {
      hide Dominates, Reach;
      if y == t.root {
        RootDominatedBySelf(g, t.root, x);
      }
      InTree(g, t, y);
      IdomNearest(g, t, x, y);
      TreeReach(g, t, x);
      DominatesPredecessor(g, t.root, t.idom[y], x, y);
      DominatesAntisym(g, t.root, x, t.idom[y]);
    }
  }

  lemma TreeReach(g: Graph, t: DomTree, x: Node)
    requires IsDomTree(g, t) && x in t.children
    ensures Reach(g, t.root, x)
  {
  }

  lemma FrontierFromChild(g: Graph, t: DomTree, x: Node, c: Node, y: Node)
    requires IsDomTree(g, t) && x in t.children && c in t.children[x] && ComesUp(g, t, x, c, y)
    ensures InFrontier(g, t.root, x, y)
  {
    var p :| Edge(g, p, y) && Dominates(g, t.root, c, p);
    assert StrictlyDominates(g, t.root, x, c) by {
      assert ImmediatelyDominates(g, t.root, t.idom[c], c);
    }
    DominatesTrans(g, t.root, x, c, p);
  }

  lemma FrontierSplits(g: Graph, t: DomTree, x: Node, y: Node) returns (c: Node)
    requires IsDomTree(g, t) && x in t.children && InFrontier(g, t.root, x, y)
    ensures IsLocal(g, t, x, y) || (c in t.children[x] && ComesUp(g, t, x, c, y))
  {
    var p :| Edge(g, p, y) && Dominates(g, t.root, x, p);
    c := x;
    if p == x {
      if y in t.idom && t.idom[y] == x {
        ChildBelow(g, t, x, y);
      }
    } else {
      assert p in t.children by {
        DominatesInTree(g, t, x, p);
      }
      hide Dominates, Reach;
      c := ChildTowards(g, t, x, p);
      ChildBelow(g, t, x, c);
      if StrictlyDominates(g, t.root, c, y) {
        DominatesTrans(g, t.root, x, c, y);
        if x == y {
          DominatesAntisym(g, t.root, x, c);
        }
      }
    }
  }

  lemma DominatesInTree(g: Graph, t: DomTree, x: Node, p: Node)
    requires IsDomTree(g, t) && Dominates(g, t.root, x, p)
    ensures p in t.children
  {
    ReachInGraph(g, t.root, p);
  }

  lemma ChildBelow(g: Graph, t: DomTree, x: Node, c: Node)
    requires IsDomTree(g, t) && x in t.children && c in t.children[x]
    ensures c in t.idom && t.idom[c] == x && c in t.children && StrictlyDominates(g, t.root, x, c)
  {
    assert ImmediatelyDominates(g, t.root, t.idom[c], c);
  }

  // ---------------------------------------------------------------- the state of the walk

  /** A block on the work list, and the block that immediately dominates it unless it is where the walk began. */
  datatype Item = Item(bb: Node, parent: Option<Node>)

  datatype Progress = Progress(stack: seq<Item>, visited: set<Node>, fr: map<Node, set<Node>>)

  function Blocks(stack: seq<Item>): set<Node> {
    set i | i in stack :: i.bb
  }

  /** The frontier of `b` is final. */
  predicate Finished(s: Progress, b: Node) {
    b in s.visited && b !in Blocks(s.stack)
  }

  ghost predicate Exact(g: Graph, t: DomTree, b: Node, fr: set<Node>) {
    forall y :: y in fr <==> InFrontier(g, t.root, b, y)
  }

  /** What the frontier of a block holds whose children are finished only in part. */
  ghost predicate Partial(g: Graph, t: DomTree, s: Progress, b: Node)
    requires b in s.fr && b in t.children
  {
    forall y :: y in s.fr[b] <==> IsLocal(g, t, b, y) || exists c :: c in t.children[b] && Finished(s, c) && ComesUp(g, t, b, c, y)
  }

  ghost predicate StackShape(t: DomTree, s: Progress, r: Node) {
    && |s.stack| > 0 && s.stack[0] == Item(r, None)
    && (forall i, j :: 0 <= i < j < |s.stack| ==> s.stack[i].bb != s.stack[j].bb)
    && (forall i :: 0 <= i < |s.stack| ==> s.stack[i].bb in t.children)
    && (forall i :: 0 < i < |s.stack| ==> ParentBelow(t, s, i))
  }

  ghost predicate ParentBelow(t: DomTree, s: Progress, i: nat)
    requires i < |s.stack|
  {
    && s.stack[i].bb in t.idom && s.stack[i].parent == Some(t.idom[s.stack[i].bb]) && t.idom[s.stack[i].bb] in s.visited
    && exists j :: 0 <= j < i && s.stack[j].bb == t.idom[s.stack[i].bb]
  }

  /** A block that has been visited is finished, or has its unfinished children above it on the stack. */
  ghost predicate ActiveAt(g: Graph, t: DomTree, s: Progress, i: nat)
    requires i < |s.stack| && s.stack[i].bb in t.children
  {
    var b := s.stack[i].bb;
    b in s.visited ==>
      && b in s.fr && Partial(g, t, s, b)
      && forall c :: c in t.children[b] ==> Finished(s, c) || exists j :: i < j < |s.stack| && s.stack[j].bb == c
  }

  ghost predicate VisitedOk(g: Graph, t: DomTree, s: Progress, r: Node) {
    forall b :: b in s.visited ==> VisitedAt(g, t, s, r, b)
  }

  ghost predicate VisitedAt(g: Graph, t: DomTree, s: Progress, r: Node, b: Node) {
    && b in t.children && Dominates(g, t.root, r, b)
    && (b == r || (b in t.idom && t.idom[b] in s.visited))
    && (b !in Blocks(s.stack) ==> b in s.fr && Exact(g, t, b, s.fr[b]) && forall c :: c in t.children[b] ==> Finished(s, c))
  }

  /** Only the frontiers of visited blocks have been written. */
  ghost predicate Untouched(s: Progress, fr0: map<Node, set<Node>>) {
    forall b :: b !in s.visited ==> (b in s.fr <==> b in fr0) && (b in fr0 ==> s.fr[b] == fr0[b])
  }

  ghost predicate Walking(g: Graph, t: DomTree, s: Progress, r: Node, fr0: map<Node, set<Node>>) {
    StackShape(t, s, r) && VisitedOk(g, t, s, r) && Untouched(s, fr0) && AllActive(g, t, s)
  }

  ghost predicate AllActive(g: Graph, t: DomTree, s: Progress) {
    forall i :: 0 <= i < |s.stack| ==> s.stack[i].bb in t.children && ActiveAt(g, t, s, i)
  }

  function Items(t: DomTree, b: Node): seq<Item>
    requires b in t.children
  {
    seq(|t.children[b]|, k requires 0 <= k < |t.children[b]| => Item(t.children[b][k], Some(b)))
  }

  function Top(s: Progress): Item
    requires s.stack != []
  {
    s.stack[|s.stack| - 1]
  }

  /** The block on top is visited: its local frontier is entered and its children go on the stack. */
  function Visit(t: DomTree, s: Progress, local: set<Node>): Progress
    requires s.stack != [] && Top(s).bb in t.children
  {
    Progress(s.stack + Items(t, Top(s).bb), s.visited + {Top(s).bb}, s.fr[Top(s).bb := local])
  }

  /** The block on top is taken off and `up` is added to the frontier of its parent. */
  function Leave(s: Progress, p: Node, up: set<Node>): Progress
    requires s.stack != [] && p in s.fr
  {
    Progress(s.stack[..|s.stack| - 1], s.visited, s.fr[p := s.fr[p] + up])
  }

  lemma BlocksAt(stack: seq<Item>, b: Node)
    ensures b in Blocks(stack) <==> exists i :: 0 <= i < |stack| && stack[i].bb == b
  {
    if b in Blocks(stack) {
      var it :| it in stack && it.bb == b;
      var i :| 0 <= i < |stack| && stack[i] == it;
    }
    if i :| 0 <= i < |stack| && stack[i].bb == b {
      assert stack[i] in stack;
    }
  }

  /** Before its visit nothing below the block on top has been touched. */
  lemma FreshBelow(g: Graph, t: DomTree, s: Progress, r: Node, fr0: map<Node, set<Node>>, c: Node)
    requires IsDomTree(g, t) && Walking(g, t, s, r, fr0) && Top(s).bb !in s.visited && c in t.children[Top(s).bb]
    ensures c in t.idom && t.idom[c] == Top(s).bb && c in t.children && c !in s.visited && c !in Blocks(s.stack) && c != r
  {
    var b := Top(s).bb;
    ChildBelow(g, t, b, c);
    if c == r {
      // r dominates all that is on the stack, and b would strictly dominate r
      StackDominated(g, t, s, r, |s.stack| - 1);
      DominatesAntisym(g, t.root, b, c);
    }
    BlocksAt(s.stack, c);
    forall i | 0 <= i < |s.stack| ensures s.stack[i].bb != c {
      assert i > 0 ==> ParentBelow(t, s, i);
    }
  }

  lemma StackDominated(g: Graph, t: DomTree, s: Progress, r: Node, i: nat)
    requires IsDomTree(g, t) && StackShape(t, s, r) && VisitedOk(g, t, s, r) && i < |s.stack|
    ensures Dominates(g, t.root, r, s.stack[i].bb)
  {
    var b := s.stack[i].bb;
    if i == 0 {
      OwnDominator(g, t, r);
    } else {
      assert ParentBelow(t, s, i);
      var p := t.idom[b];
      assert p in s.visited;
      InTree(g, t, b) by {
        RootOnTop(g, t, s, r, i);
      }
      DominatesTrans(g, t.root, r, p, b);
    }
  }

  lemma RootOnTop(g: Graph, t: DomTree, s: Progress, r: Node, i: nat)
    requires IsDomTree(g, t) && StackShape(t, s, r) && 0 < i < |s.stack|
    ensures s.stack[i].bb != t.root
  {
    assert ParentBelow(t, s, i);
  }

  // ---------------------------------------------------------------- the steps keep the invariant

  lemma FreshChildren(g: Graph, t: DomTree, s: Progress, r: Node, fr0: map<Node, set<Node>>)
    requires IsDomTree(g, t) && Walking(g, t, s, r, fr0) && Top(s).bb !in s.visited
    ensures Top(s).bb in t.children && NoDuplicates(t.children[Top(s).bb])
    ensures forall c :: c in t.children[Top(s).bb] ==>
      c in t.idom && t.idom[c] == Top(s).bb && c in t.children && c !in s.visited && c !in Blocks(s.stack)
  {
    forall c | c in t.children[Top(s).bb]
      ensures c in t.idom && t.idom[c] == Top(s).bb && c in t.children && c !in s.visited && c !in Blocks(s.stack)
    {
      FreshBelow(g, t, s, r, fr0, c);
    }
  }

  lemma VisitShape(t: DomTree, s: Progress, r: Node, local: set<Node>)
    requires StackShape(t, s, r) && Top(s).bb in t.children && NoDuplicates(t.children[Top(s).bb])
    requires forall c :: c in t.children[Top(s).bb] ==> c in t.idom && t.idom[c] == Top(s).bb && c in t.children && c !in Blocks(s.stack)
    ensures StackShape(t, Visit(t, s, local), r)
  {
    var b, s', n := Top(s).bb, Visit(t, s, local), |s.stack|;
    var cs := t.children[b];
    forall i | n <= i < |s'.stack| ensures s'.stack[i] == Item(cs[i - n], Some(b)) && cs[i - n] in cs {
    }
    forall i | 0 < i < |s'.stack| ensures ParentBelow(t, s', i) {
      if i < n {
        assert ParentBelow(t, s, i);
        var j :| 0 <= j < i && s.stack[j].bb == t.idom[s.stack[i].bb];
        assert s'.stack[j].bb == t.idom[s'.stack[i].bb];
      } else {
        assert s'.stack[n - 1].bb == b;
      }
    }
    forall i, j | 0 <= i < j < |s'.stack| ensures s'.stack[i].bb != s'.stack[j].bb {
      if i < n <= j {
        BlocksAt(s.stack, cs[j - n]);
      }
    }
  }

  lemma VisitBlocks(t: DomTree, s: Progress, local: set<Node>)
    requires s.stack != [] && Top(s).bb in t.children
    ensures forall c :: c in Blocks(Visit(t, s, local).stack) <==> c in Blocks(s.stack) || c in t.children[Top(s).bb]
    ensures Top(s).bb in Blocks(s.stack)
  {
    var s', n, cs := Visit(t, s, local), |s.stack|, t.children[Top(s).bb];
    BlocksAt(s.stack, Top(s).bb);
    forall c ensures c in Blocks(s'.stack) <==> c in Blocks(s.stack) || c in cs {
      BlocksAt(s.stack, c);
      BlocksAt(s'.stack, c);
      if c in cs {
        var k :| 0 <= k < |cs| && cs[k] == c;
        assert s'.stack[n + k].bb == c;
      }
      if i :| 0 <= i < n && s.stack[i].bb == c {
        assert s'.stack[i].bb == c;
      }
    }
  }

  lemma SamePartial(g: Graph, t: DomTree, s: Progress, s': Progress, b: Node)
    requires b in s.fr && b in s'.fr && b in t.children && s'.fr[b] == s.fr[b] && Partial(g, t, s, b)
    requires forall c :: c in t.children[b] ==> (Finished(s', c) <==> Finished(s, c))
    ensures Partial(g, t, s', b)
  {
  }

  lemma VisitActive(g: Graph, t: DomTree, s: Progress, r: Node, local: set<Node>, i: nat)
    requires StackShape(t, s, r) && Top(s).bb in t.children && Top(s).bb !in s.visited
    requires forall y :: y in local <==> IsLocal(g, t, Top(s).bb, y)
    requires forall c :: c in t.children[Top(s).bb] ==> c !in s.visited
    requires forall x :: Finished(Visit(t, s, local), x) <==> Finished(s, x)
    requires i < |s.stack| && ActiveAt(g, t, s, i)
    ensures i < |Visit(t, s, local).stack| && ActiveAt(g, t, Visit(t, s, local), i)
  {
    hide IsLocal, ComesUp, Finished;
    var s', n := Visit(t, s, local), |s.stack|;
    var b := s.stack[i].bb;
    assert s'.stack[i] == s.stack[i];
    if i == n - 1 {
      var cs := t.children[b];
      forall c | c in cs ensures !Finished(s', c) && exists j :: i < j < |s'.stack| && s'.stack[j].bb == c {
        var k :| 0 <= k < |cs| && cs[k] == c;
        assert s'.stack[n + k].bb == c;
        NotFinished(s, c);
      }
    } else if b in s.visited {
      SamePartial(g, t, s, s', b);
      forall c | c in t.children[b] && !Finished(s', c) ensures exists j :: i < j < |s'.stack| && s'.stack[j].bb == c {
        var j :| i < j < |s.stack| && s.stack[j].bb == c;
        assert s'.stack[j].bb == c;
      }
    }
  }

  lemma NotFinished(s: Progress, c: Node)
    requires c !in s.visited
    ensures !Finished(s, c)
  {
  }

  lemma VisitParts(t: DomTree, s: Progress, local: set<Node>)
    requires s.stack != [] && Top(s).bb in t.children
    ensures Visit(t, s, local).visited == s.visited + {Top(s).bb} && Visit(t, s, local).fr == s.fr[Top(s).bb := local]
  {
  }

  lemma VisitVisited(g: Graph, t: DomTree, s: Progress, r: Node, local: set<Node>, b: Node)
    requires IsDomTree(g, t) && StackShape(t, s, r) && VisitedOk(g, t, s, r) && Top(s).bb !in s.visited
    requires forall x :: Finished(Visit(t, s, local), x) <==> Finished(s, x)
    requires forall c :: c in Blocks(s.stack) ==> c in Blocks(Visit(t, s, local).stack)
    requires b in Visit(t, s, local).visited
    ensures VisitedAt(g, t, Visit(t, s, local), r, b)
  {
    hide Exact, Dominates, Finished;
    var s' := Visit(t, s, local);
    VisitParts(t, s, local);
    hide Visit;
    if b == Top(s).bb {
      hide IsDomTree, VisitedOk;
      StackDominated(g, t, s, r, |s.stack| - 1);
      BlocksAt(s.stack, b);
      assert b in Blocks(s.stack);
      assert |s.stack| - 1 > 0 ==> ParentBelow(t, s, |s.stack| - 1);
    } else {
      hide IsDomTree, StackShape, Blocks;
      assert VisitedAt(g, t, s, r, b);
    }
  }

  lemma VisitAllVisited(g: Graph, t: DomTree, s: Progress, r: Node, local: set<Node>)
    requires IsDomTree(g, t) && StackShape(t, s, r) && VisitedOk(g, t, s, r) && Top(s).bb in t.children && Top(s).bb !in s.visited
    requires forall x :: Finished(Visit(t, s, local), x) <==> Finished(s, x)
    requires forall c :: c in Blocks(s.stack) ==> c in Blocks(Visit(t, s, local).stack)
    ensures VisitedOk(g, t, Visit(t, s, local), r)
  {
    var s' := Visit(t, s, local);
    hide VisitedAt, Finished, StackShape, IsDomTree, Visit, Blocks;
    forall b | b in s'.visited ensures VisitedAt(g, t, s', r, b) {
      VisitVisited(g, t, s, r, local, b);
    }
  }

  lemma VisitAllActive(g: Graph, t: DomTree, s: Progress, r: Node, local: set<Node>)
    requires StackShape(t, s, r) && AllActive(g, t, s) && Top(s).bb in t.children && Top(s).bb !in s.visited
    requires forall y :: y in local <==> IsLocal(g, t, Top(s).bb, y)
    requires forall c :: c in t.children[Top(s).bb] ==> c !in s.visited && c in t.children && c != Top(s).bb
    requires forall x :: Finished(Visit(t, s, local), x) <==> Finished(s, x)
    ensures AllActive(g, t, Visit(t, s, local))
  {
    var s' := Visit(t, s, local);
    hide StackShape, Finished, IsLocal, ActiveAt, Visit;
    forall i | 0 <= i < |s'.stack| ensures s'.stack[i].bb in t.children && ActiveAt(g, t, s', i) {
      if i < |s.stack| {
        VisitActive(g, t, s, r, local, i);
        VisitPrefix(t, s, local, i);
      } else {
        NewInactive(g, t, s, local, i);
      }
    }
  }

  lemma VisitPrefix(t: DomTree, s: Progress, local: set<Node>, i: nat)
    requires s.stack != [] && Top(s).bb in t.children && i < |s.stack|
    ensures i < |Visit(t, s, local).stack| && Visit(t, s, local).stack[i] == s.stack[i]
  {
  }

  lemma SameFinished(t: DomTree, s: Progress, local: set<Node>)
    requires s.stack != [] && Top(s).bb in t.children && forall c :: c in t.children[Top(s).bb] ==> c !in s.visited
    ensures forall x :: Finished(Visit(t, s, local), x) <==> Finished(s, x)
  {
    VisitBlocks(t, s, local);
  }

  lemma VisitUntouched(t: DomTree, s: Progress, local: set<Node>, fr0: map<Node, set<Node>>)
    requires s.stack != [] && Top(s).bb in t.children && Untouched(s, fr0)
    ensures Untouched(Visit(t, s, local), fr0)
  {
  }

  /** The first visit of the block on top. */
  lemma VisitKeeps(g: Graph, t: DomTree, s: Progress, r: Node, fr0: map<Node, set<Node>>, local: set<Node>)
    requires IsDomTree(g, t) && Walking(g, t, s, r, fr0) && s.stack != [] && Top(s).bb in t.children && Top(s).bb !in s.visited
    requires forall y :: y in local <==> IsLocal(g, t, Top(s).bb, y)
    ensures Walking(g, t, Visit(t, s, local), r, fr0)
    ensures forall c :: c in t.children[Top(s).bb] ==> c !in s.visited && c != Top(s).bb
  {
    hide StackShape, IsDomTree, Finished, IsLocal, AllActive, VisitedOk, Untouched, Visit, Blocks;
    FreshChildren(g, t, s, r, fr0);
    assert Top(s).bb in Blocks(s.stack) by {
      VisitBlocks(t, s, local);
    }
    VisitShape(t, s, r, local);
    VisitBlocks(t, s, local);
    SameFinished(t, s, local);
    VisitUntouched(t, s, local, fr0);
    VisitAllVisited(g, t, s, r, local);
    VisitAllActive(g, t, s, r, local);
  }

  lemma NewInactive(g: Graph, t: DomTree, s: Progress, local: set<Node>, i: nat)
    requires s.stack != [] && Top(s).bb in t.children && |s.stack| <= i < |Visit(t, s, local).stack|
    requires forall c :: c in t.children[Top(s).bb] ==> c !in s.visited && c in t.children && c != Top(s).bb
    ensures Visit(t, s, local).stack[i].bb in t.children && ActiveAt(g, t, Visit(t, s, local), i)
  {
    var cs := t.children[Top(s).bb];
    assert cs[i - |s.stack|] in cs;
  }

  // ---------------------------------------------------------------- leaving a block

  /** Once its children are finished, a block's frontier is complete. */
  lemma FrontierComplete(g: Graph, t: DomTree, s: Progress, b: Node)
    requires IsDomTree(g, t) && b in s.fr && b in t.children && Partial(g, t, s, b)
    requires forall c :: c in t.children[b] ==> Finished(s, c)
    ensures Exact(g, t, b, s.fr[b])
  {
    hide IsDomTree, IsLocal, ComesUp, InFrontier, Finished;
    forall y ensures y in s.fr[b] <==> InFrontier(g, t.root, b, y) {
      if y in s.fr[b] {
        if IsLocal(g, t, b, y) {
          LocalInFrontier(g, t, b, y);
        } else {
          var c :| c in t.children[b] && Finished(s, c) && ComesUp(g, t, b, c, y);
          FrontierFromChild(g, t, b, c, y);
        }
      } else if InFrontier(g, t.root, b, y) {
        var c := FrontierSplits(g, t, b, y);
      }
    }
  }

  lemma TopComplete(g: Graph, t: DomTree, s: Progress, r: Node, fr0: map<Node, set<Node>>)
    requires IsDomTree(g, t) && Walking(g, t, s, r, fr0) && Top(s).bb in s.visited
    ensures Top(s).bb in s.fr && Top(s).bb in t.children && Exact(g, t, Top(s).bb, s.fr[Top(s).bb])
    ensures forall c :: c in t.children[Top(s).bb] ==> Finished(s, c)
  {
    hide Exact, IsDomTree, Finished;
    assert ActiveAt(g, t, s, |s.stack| - 1);
    FrontierComplete(g, t, s, Top(s).bb);
  }

  lemma LeaveBlocks(t: DomTree, s: Progress, r: Node, p: Node, up: set<Node>)
    requires StackShape(t, s, r) && |s.stack| > 1 && p in s.fr
    ensures forall x :: x in Blocks(Leave(s, p, up).stack) <==> x in Blocks(s.stack) && x != Top(s).bb
    ensures StackShape(t, Leave(s, p, up), r)
  {
    var s', n := Leave(s, p, up), |s.stack| - 1;
    forall x ensures x in Blocks(s'.stack) <==> x in Blocks(s.stack) && x != Top(s).bb {
      BlocksAt(s.stack, x);
      BlocksAt(s'.stack, x);
      if i :| 0 <= i < n && s.stack[i].bb == x {
        assert s'.stack[i].bb == x;
      }
      if i :| 0 <= i < n && s'.stack[i].bb == x {
        assert s.stack[i].bb == x;
      }
    }
    forall i | 0 < i < |s'.stack| ensures ParentBelow(t, s', i) {
      assert ParentBelow(t, s, i);
      var j :| 0 <= j < i && s.stack[j].bb == t.idom[s.stack[i].bb];
      assert s'.stack[j].bb == t.idom[s'.stack[i].bb];
    }
  }

  lemma ParentPartial(g: Graph, t: DomTree, s: Progress, p: Node, b: Node, up: set<Node>)
    requires s.stack != [] && p in s.fr && p in t.children && Partial(g, t, s, p) && b in t.children[p]
    requires forall x :: Finished(Leave(s, p, up), x) <==> Finished(s, x) || x == b
    requires forall y :: y in up <==> ComesUp(g, t, p, b, y)
    ensures Partial(g, t, Leave(s, p, up), p)
  {
    hide Finished, IsLocal, ComesUp;
    var s' := Leave(s, p, up);
    forall y ensures y in s'.fr[p] <==> IsLocal(g, t, p, y) || exists c :: c in t.children[p] && Finished(s', c) && ComesUp(g, t, p, c, y) {
      if y in up {
        assert b in t.children[p] && Finished(s', b) && ComesUp(g, t, p, b, y);
      }
      if c :| c in t.children[p] && Finished(s, c) && ComesUp(g, t, p, c, y) {
        assert Finished(s', c);
      }
    }
  }

  lemma LeaveActive(g: Graph, t: DomTree, s: Progress, r: Node, p: Node, up: set<Node>, i: nat)
    requires IsDomTree(g, t) && StackShape(t, s, r) && i < |s.stack| - 1 && p in s.fr && ActiveAt(g, t, s, i)
    requires Top(s).bb in t.idom && t.idom[Top(s).bb] == p && p in t.children && p in s.visited
    requires forall x :: Finished(Leave(s, p, up), x) <==> Finished(s, x) || x == Top(s).bb
    requires forall y :: y in up <==> ComesUp(g, t, p, Top(s).bb, y)
    ensures ActiveAt(g, t, Leave(s, p, up), i)
  {
    hide Finished, IsLocal, ComesUp;
    var s', b := Leave(s, p, up), s.stack[i].bb;
    assert s'.stack[i] == s.stack[i];
    if b in s.visited {
      if b == p {
        ParentPartial(g, t, s, p, Top(s).bb, up);
      } else {
        SamePartial(g, t, s, s', b);
      }
      forall c | c in t.children[b] && !Finished(s', c) ensures exists j :: i < j < |s'.stack| && s'.stack[j].bb == c {
        var j :| i < j < |s.stack| && s.stack[j].bb == c;
        assert j != |s.stack| - 1;
        assert s'.stack[j].bb == c;
      }
    }
  }

  lemma ParentOfTop(g: Graph, t: DomTree, s: Progress, r: Node, fr0: map<Node, set<Node>>) returns (p: Node)
    requires IsDomTree(g, t) && Walking(g, t, s, r, fr0) && |s.stack| > 1
    ensures Top(s).parent == Some(p) && Top(s).bb in t.idom && t.idom[Top(s).bb] == p && p in s.visited && p in s.fr && p in t.children
    ensures p in Blocks(s.stack) && p != Top(s).bb
  {
    var n := |s.stack| - 1;
    assert ParentBelow(t, s, n);
    p := t.idom[Top(s).bb];
    var j :| 0 <= j < n && s.stack[j].bb == p;
    assert ActiveAt(g, t, s, j);
    BlocksAt(s.stack, p);
  }

  lemma LeaveFinished(t: DomTree, s: Progress, r: Node, p: Node, up: set<Node>)
    requires StackShape(t, s, r) && |s.stack| > 1 && p in s.fr && Top(s).bb in s.visited
    ensures forall x :: Finished(Leave(s, p, up), x) <==> Finished(s, x) || x == Top(s).bb
  {
    LeaveBlocks(t, s, r, p, up);
    BlocksAt(s.stack, Top(s).bb);
  }

  lemma LeaveAllActive(g: Graph, t: DomTree, s: Progress, r: Node, p: Node, up: set<Node>)
    requires IsDomTree(g, t) && StackShape(t, s, r) && AllActive(g, t, s) && |s.stack| > 1 && p in s.fr
    requires Top(s).bb in t.idom && t.idom[Top(s).bb] == p && p in t.children && p in s.visited
    requires forall x :: Finished(Leave(s, p, up), x) <==> Finished(s, x) || x == Top(s).bb
    requires forall y :: y in up <==> ComesUp(g, t, p, Top(s).bb, y)
    ensures AllActive(g, t, Leave(s, p, up))
  {
    hide StackShape, Finished, ActiveAt, ComesUp, IsDomTree;
    var s' := Leave(s, p, up);
    forall i | 0 <= i < |s'.stack| ensures s'.stack[i].bb in t.children && ActiveAt(g, t, s', i) {
      LeaveActive(g, t, s, r, p, up, i);
    }
  }

  lemma LeaveVisited(g: Graph, t: DomTree, s: Progress, r: Node, p: Node, up: set<Node>)
    requires VisitedOk(g, t, s, r) && s.stack != [] && p in s.fr && p in Blocks(s.stack) && p != Top(s).bb
    requires Top(s).bb in s.fr && Top(s).bb in t.children && Exact(g, t, Top(s).bb, s.fr[Top(s).bb])
    requires forall c :: c in t.children[Top(s).bb] ==> Finished(s, c)
    requires forall x :: Finished(Leave(s, p, up), x) <==> Finished(s, x) || x == Top(s).bb
    requires forall x :: x in Blocks(Leave(s, p, up).stack) <==> x in Blocks(s.stack) && x != Top(s).bb
    ensures VisitedOk(g, t, Leave(s, p, up), r)
  {
    hide Exact, Dominates, Finished, Blocks;
    forall b | b in s.visited ensures VisitedAt(g, t, Leave(s, p, up), r, b) {
      assert VisitedAt(g, t, s, r, b);
    }
  }

  lemma UpComes(g: Graph, t: DomTree, p: Node, b: Node, fr: set<Node>, up: set<Node>)
    requires Exact(g, t, b, fr) && forall y :: y in up <==> y in fr && !StrictlyDominates(g, t.root, p, y)
    ensures forall y :: y in up <==> ComesUp(g, t, p, b, y)
  {
  }

  lemma LeaveUntouched(s: Progress, p: Node, up: set<Node>, fr0: map<Node, set<Node>>)
    requires s.stack != [] && p in s.fr && p in s.visited && Untouched(s, fr0)
    ensures Untouched(Leave(s, p, up), fr0)
  {
  }

  /** The block on top is finished, and what its parent does not dominate goes into the frontier of the parent. */
  lemma LeaveKeeps(g: Graph, t: DomTree, s: Progress, r: Node, fr0: map<Node, set<Node>>, p: Node, up: set<Node>)
    requires IsDomTree(g, t) && Walking(g, t, s, r, fr0) && |s.stack| > 1 && Top(s).bb in s.visited
    requires Top(s).parent == Some(p) && p in s.fr && Top(s).bb in s.fr
    requires forall y :: y in up <==> y in s.fr[Top(s).bb] && !StrictlyDominates(g, t.root, p, y)
    ensures Walking(g, t, Leave(s, p, up), r, fr0)
  {
    hide StackShape, IsDomTree, Blocks, Finished, AllActive, VisitedOk, Untouched, Exact, ComesUp, StrictlyDominates, Leave;
    TopComplete(g, t, s, r, fr0);
    var q := ParentOfTop(g, t, s, r, fr0);
    LeaveBlocks(t, s, r, p, up);
    LeaveFinished(t, s, r, p, up);
    UpComes(g, t, p, Top(s).bb, s.fr[Top(s).bb], up);
    LeaveUntouched(s, p, up, fr0);
    LeaveAllActive(g, t, s, r, p, up);
    LeaveVisited(g, t, s, r, p, up);
  }

  // ---------------------------------------------------------------- the end

  lemma {:induction false} SubtreeFinished(g: Graph, t: DomTree, s: Progress, r: Node, b: Node)
    requires IsDomTree(g, t) && VisitedOk(g, t, s, r) && r in t.children && b in t.children && Dominates(g, t.root, r, b)
    requires r in s.visited && forall c :: c in t.children[r] ==> Finished(s, c)
    ensures b == r || Finished(s, b)
    decreases Dominators(g, t.root, b)
  {
    if b != r {
      RootOr(g, t, r, b);
      InTree(g, t, b);
      var d := t.idom[b];
      IdomNearest(g, t, r, b);
      FewerDominators(g, t, b);
      SubtreeFinished(g, t, s, r, d);
    }
  }

  lemma RootOr(g: Graph, t: DomTree, r: Node, b: Node)
    requires b != r && Dominates(g, t.root, r, b)
    ensures b != t.root && StrictlyDominates(g, t.root, r, b)
  {
    if b == t.root {
      RootDominatedBySelf(g, t.root, r);
    }
  }

  lemma WalkStarts(g: Graph, t: DomTree, r: Node, fr0: map<Node, set<Node>>)
    requires IsDomTree(g, t) && r in t.children
    ensures Walking(g, t, Progress([Item(r, None)], {}, fr0), r, fr0)
  {
  }

  lemma StackBasics(g: Graph, t: DomTree, s: Progress, r: Node, fr0: map<Node, set<Node>>)
    requires IsDomTree(g, t) && Walking(g, t, s, r, fr0)
    ensures s.stack != [] && Top(s).bb in t.children && Top(s).bb in g && s.visited <= t.children.Keys
    ensures |s.stack| == 1 <==> Top(s).parent.None?
    ensures |s.stack| == 1 ==> Top(s).bb == r
  {
    hide Reach;
    var n := |s.stack| - 1;
    assert n > 0 ==> ParentBelow(t, s, n);
  }

  lemma FreshTop(g: Graph, t: DomTree, s: Progress, r: Node, fr0: map<Node, set<Node>>)
    requires IsDomTree(g, t) && Walking(g, t, s, r, fr0) && Top(s).bb !in s.visited
    requires forall b :: b in t.children && Dominates(g, t.root, r, b) ==> b !in fr0
    ensures Top(s).bb !in s.fr
  {
    StackDominated(g, t, s, r, |s.stack| - 1);
  }

  lemma ChildrenVisited(t: DomTree, s: Progress, b: Node)
    requires b in t.children && forall c :: c in t.children[b] ==> Finished(s, c)
    ensures forall c :: c in t.children[b] ==> c in s.visited
  {
  }

  lemma FrontierKnown(g: Graph, t: DomTree, b: Node, fr: set<Node>)
    requires IsDomTree(g, t) && Exact(g, t, b, fr)
    ensures forall y :: y in fr ==> y in t.children
  {
    hide Reach;
    forall y | y in fr ensures y in t.children {
      var p :| Edge(g, p, y) && Dominates(g, t.root, b, p);
      DominatesInTree(g, t, b, p);
      SuccessorInTree(g, t, p, y);
    }
  }

  /** All blocks of the subtree are finished when the walk is back at its start. */
  lemma WalkEnds(g: Graph, t: DomTree, s: Progress, r: Node, fr0: map<Node, set<Node>>)
    requires IsDomTree(g, t) && Walking(g, t, s, r, fr0) && |s.stack| == 1 && r in s.visited
    ensures forall b :: b in t.children && Dominates(g, t.root, r, b) ==> b in s.fr && Exact(g, t, b, s.fr[b])
    ensures forall b :: !(b in t.children && Dominates(g, t.root, r, b)) ==>
      (b in s.fr <==> b in fr0) && (b in s.fr ==> s.fr[b] == fr0[b])
  {
    TopComplete(g, t, s, r, fr0);
    hide Dominates, Exact, IsDomTree;
    forall b | b in t.children && Dominates(g, t.root, r, b) ensures b in s.fr && Exact(g, t, b, s.fr[b]) {
      SubtreeFinished(g, t, s, r, b);
    }
  }

  // ---------------------------------------------------------------- the class

  class DominanceFrontier {
    var frontiers: map<Node, set<Node>>

    constructor ()
      ensures frontiers == map[]
    {
      frontiers := map[];
    }

    /** The successors of `bb` that it does not immediately dominate (DominanceFrontier.cpp:65-71). */
    method EnterLocal(g: Graph, t: DomTree, bb: Node)
      requires bb in g && bb in frontiers && frontiers[bb] == {}
      modifies this
      ensures frontiers.Keys == old(frontiers).Keys
      ensures forall y :: y in frontiers[bb] <==> IsLocal(g, t, bb, y)
      ensures frontiers == old(frontiers)[bb := frontiers[bb]]
    {
      var i := 0;
      while i < |g[bb]|
        invariant 0 <= i <= |g[bb]| && frontiers.Keys == old(frontiers).Keys
        invariant forall y :: y in frontiers[bb] ==> IsLocal(g, t, bb, y)
        invariant forall k :: 0 <= k < i && IsLocal(g, t, bb, g[bb][k]) ==> g[bb][k] in frontiers[bb]
        invariant frontiers == old(frontiers)[bb := frontiers[bb]]
      {
        var succ := g[bb][i];
        if !(succ in t.idom && t.idom[succ] == bb) {
          frontiers := frontiers[bb := frontiers[bb] + {succ}];
        }
        i := i + 1;
      }
      forall y | IsLocal(g, t, bb, y) ensures y in frontiers[bb] {
        var k :| 0 <= k < |g[bb]| && g[bb][k] == y;
      }
    }

    /** What `parent` does not strictly dominate goes up into its frontier (DominanceFrontier.cpp:98-103). */
    method MergeUp(t: DomTree, bb: Node, parent: Node, ghost g: Graph) returns (ghost up: set<Node>)
      requires IsDomTree(g, t) && parent in t.children && bb in frontiers && parent in frontiers && bb != parent
      requires forall y :: y in frontiers[bb] ==> y in t.children
      modifies this
      ensures frontiers == old(frontiers)[parent := old(frontiers)[parent] + up]
      ensures forall y :: y in up <==> y in old(frontiers)[bb] && !StrictlyDominates(g, t.root, parent, y)
    {
      hide IsDomTree, StrictlyDominates;
      var rest := frontiers[bb];
      up := {};
      assert old(frontiers)[parent] + up == old(frontiers)[parent];
      while rest != {}
        invariant rest <= old(frontiers)[bb]
        invariant frontiers == old(frontiers)[parent := old(frontiers)[parent] + up]
        invariant forall y :: y in up <==> y in old(frontiers)[bb] && y !in rest && !StrictlyDominates(g, t.root, parent, y)
        decreases |rest|
      {
        var y :| y in rest;
        var below := ProperlyDominates(t, parent, y, g);
        if !below {
          frontiers := frontiers[parent := frontiers[parent] + {y}];
          assert old(frontiers)[parent] + (up + {y}) == (old(frontiers)[parent] + up) + {y};
          up := up + {y};
        }
        rest := rest - {y};
      }
    }

    /** Puts the children of a block that have not been visited on the work list (DominanceFrontier.cpp:77-86). */
    method PushChildren(t: DomTree, bb: Node, visited: set<Node>, workList0: seq<Item>) returns (workList: seq<Item>, visitChild: bool)
      requires bb in t.children
      ensures (forall c :: c in t.children[bb] ==> c !in visited) ==> workList == workList0 + Items(t, bb)
      ensures (forall c :: c in t.children[bb] ==> c in visited) ==> workList == workList0
      ensures workList0 <= workList && (visitChild <==> workList != workList0)
    {
      workList, visitChild := workList0, false;
      var i := 0;
      while i < |t.children[bb]|
        invariant 0 <= i <= |t.children[bb]| && workList0 <= workList && (visitChild <==> workList != workList0)
        invariant (forall c :: c in t.children[bb] ==> c !in visited) ==> workList == workList0 + Items(t, bb)[..i]
        invariant (forall c :: c in t.children[bb] ==> c in visited) ==> workList == workList0
      {
        var childBB := t.children[bb][i];
        assert Items(t, bb)[..i + 1] == Items(t, bb)[..i] + [Item(childBB, Some(bb))];
        if childBB !in visited {
          workList := workList + [Item(childBB, Some(bb))];
          visitChild := true;
        }
        i := i + 1;
      }
      assert Items(t, bb)[..i] == Items(t, bb);
    }

    /**
     The frontiers of `node` and of all blocks below it in the dominator tree, and that of `node` as the
     result (DominanceFrontier.cpp:39-110).
     */
    method Calculate(g: Graph, t: DomTree, node: Node) returns (result: set<Node>)
      requires IsDomTree(g, t) && node in t.children
      requires forall b :: b in t.children && Dominates(g, t.root, node, b) ==> b !in frontiers
      modifies this
      ensures forall b :: b in t.children && Dominates(g, t.root, node, b) ==> b in frontiers && Exact(g, t, b, frontiers[b])
      ensures forall b :: !(b in t.children && Dominates(g, t.root, node, b)) ==>
        (b in frontiers <==> b in old(frontiers)) && (b in frontiers ==> frontiers[b] == old(frontiers)[b])
      ensures node in frontiers && result == frontiers[node]
    {
      hide IsDomTree, Walking, Exact, Dominates, Finished, InFrontier;
      var workList, visited: set<Node> := [Item(node, None)], {};
      ghost var s := Progress(workList, visited, frontiers);
      WalkStarts(g, t, node, frontiers);
      while true
        invariant s == Progress(workList, visited, frontiers) && Walking(g, t, s, node, old(frontiers))
        decreases t.children.Keys - visited, |workList|
      {
        StackBasics(g, t, s, node, old(frontiers));
        var currentBB, parentBB := workList[|workList| - 1].bb, workList[|workList| - 1].parent;
        if currentBB !in visited {
          FreshTop(g, t, s, node, old(frontiers));
          frontiers := frontiers[currentBB := {}];
          visited := visited + {currentBB};
          EnterLocal(g, t, currentBB);
          VisitKeeps(g, t, s, node, old(frontiers), frontiers[currentBB]);
          s := Visit(t, s, frontiers[currentBB]);
          StackBasics(g, t, s, node, old(frontiers));
        } else {
          TopComplete(g, t, s, node, old(frontiers));
          ChildrenVisited(t, s, currentBB);
        }
        var visitChild;
        workList, visitChild := PushChildren(t, currentBB, visited, workList);
        assert workList == s.stack;
        if !visitChild {
          TopComplete(g, t, s, node, old(frontiers));
          if parentBB.None? {
            result := frontiers[currentBB];
            WalkEnds(g, t, s, node, old(frontiers));
            return;
          }
          ghost var p := ParentOfTop(g, t, s, node, old(frontiers));
          FrontierKnown(g, t, currentBB, frontiers[currentBB]);
          ghost var up := MergeUp(t, currentBB, parentBB.value, g);
          LeaveKeeps(g, t, s, node, old(frontiers), p, up);
          s := Leave(s, p, up);
          workList := workList[..|workList| - 1];
        }
      }
    }
  }
}
