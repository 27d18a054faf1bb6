/**
 The bookkeeping of lib/Analysis/LazyCallGraph.cpp as plain values: which SCC a node is in, the parent
 sets and the leaf list, and what each step of a walk does to them.  `Sound` says that numbers, map and node
 lists agree; `Moved`, `Entered` and `Grew` describe the changes that methods of the class make.  Many lemmas
 here only hand facts from one such description to the next, so that the class need not look inside.
 */
module SCCTables {
  import opened Digraph
  import opened TarjanWalk
  import opened Wrappers

  /** An SCC object, in the order of allocation. */
  type SCC = nat

  function Firsts(s: seq<(Node, nat)>): (r: seq<Node>)
    ensures |r| == |s| && forall k :: 0 <= k < |s| ==> r[k] == s[k].0
  {
    seq(|s|, k requires 0 <= k < |s| => s[k].0)
  }

  function Seconds(s: seq<(Node, nat)>): (r: seq<nat>)
    ensures |r| == |s| && forall k :: 0 <= k < |s| ==> r[k] == s[k].1
  {
    seq(|s|, k requires 0 <= k < |s| => s[k].1)
  }

  ghost function Elements(s: seq<Node>): set<Node> {
    set v | v in s
  }

  /** Node `u` calls some node of `d`. */
  ghost predicate NodeCalls(g: Graph, sccMap: map<Node, SCC>, u: Node, d: SCC) {
    exists v :: Edge(g, u, v) && v in sccMap && sccMap[v] == d
  }

  /** Some node of `c` calls some node of `d`. */
  ghost predicate Calls(g: Graph, sccMap: map<Node, SCC>, c: SCC, d: SCC) {
    exists u :: u in sccMap && sccMap[u] == c && NodeCalls(g, sccMap, u, d)
  }

  /** `hit` are the SCCs other than `c` that some node of `ns` calls. */
  ghost predicate Hits(g: Graph, sccMap: map<Node, SCC>, c: SCC, ns: seq<Node>, hit: set<SCC>) {
    && (forall n, d {:trigger NodeCalls(g, sccMap, n, d)} :: n in ns && d != c && NodeCalls(g, sccMap, n, d) ==> d in hit)
    && forall d :: d in hit ==> d != c && SomeCalls(g, sccMap, ns, d)
  }

  ghost predicate SomeCalls(g: Graph, sccMap: map<Node, SCC>, ns: seq<Node>, d: SCC) {
    exists n :: n in ns && NodeCalls(g, sccMap, n, d)
  }

  lemma HitsNone(g: Graph, sccMap: map<Node, SCC>, c: SCC)
    ensures forall ns: seq<Node> :: Hits(g, sccMap, c, ns[..0], {})
  {
  }

  lemma HitsMore(g: Graph, sccMap: map<Node, SCC>, c: SCC, ns: seq<Node>, i: nat, hit: set<SCC>, more: set<SCC>)
    requires i < |ns| && Hits(g, sccMap, c, ns[..i], hit)
    requires forall d :: d in more <==> d != c && NodeCalls(g, sccMap, ns[i], d)
    ensures Hits(g, sccMap, c, ns[..i + 1], hit + more)
  {
    hide NodeCalls;
    assert forall n :: n in ns[..i + 1] <==> n in ns[..i] || n == ns[i];
  }

  lemma HitsAll(g: Graph, sccMap: map<Node, SCC>, c: SCC, ns: seq<Node>, hit: set<SCC>)
    requires Hits(g, sccMap, c, ns[..|ns|], hit) && forall v :: v in ns <==> v in sccMap && sccMap[v] == c
    ensures forall d :: d in hit <==> d != c && Calls(g, sccMap, c, d)
  {
    hide NodeCalls;
    assert ns[..|ns|] == ns;
  }

  lemma MemberEdge(g: Graph, u: Node, v: Node)
    requires u in g && v in g[u]
    ensures Edge(g, u, v)
  {
  }

  ghost predicate IsLeaf(g: Graph, sccMap: map<Node, SCC>, c: SCC) {
    forall d :: d != c ==> !Calls(g, sccMap, c, d)
  }

  ghost function Members(sccMap: map<Node, SCC>, c: SCC): set<Node> {
    set v | v in sccMap && sccMap[v] == c
  }

  /** What the walks keep about nodes and SCCs. */
  datatype Tables = Tables(num: map<Node, int>, low: map<Node, int>, sccMap: map<Node, SCC>, nodes: map<SCC, seq<Node>>)

  /** The numbers -1 and the SCC map agree. */
  ghost predicate Placed(g: Graph, t: Tables) {
    && t.num.Keys == t.low.Keys == g.Keys
    && t.sccMap.Keys <= g.Keys
    && forall v :: v in g ==> (t.num[v] < 0 <==> v in t.sccMap) && (t.low[v] < 0 <==> v in t.sccMap)
  }

  ghost predicate NoRepeats(s: seq<nat>) {
    forall i, j :: 0 <= i < j < |s| ==> s[i] != s[j]
  }

  lemma NoRepeatsMore(s: seq<nat>, n: nat)
    requires NoRepeats(s) && n !in s
    ensures NoRepeats(s + [n])
  {
  }

  lemma {:induction false} NoRepeatsCount(s: seq<Node>)
    ensures NoRepeats(s) <==> |Elements(s)| == |s|
    ensures |Elements(s)| <= |s|
  {
    if s == [] {
      assert Elements(s) == {};
    } else {
      var n := |s| - 1;
      NoRepeatsCount(s[..n]);
      assert s == s[..n] + [s[n]];
      assert Elements(s) == Elements(s[..n]) + {s[n]};
      if s[n] in s[..n] {
        var i :| 0 <= i < n && s[..n][i] == s[n];
        assert Elements(s) == Elements(s[..n]);
      } else {
        assert NoRepeats(s) ==> NoRepeats(s[..n]);
        if NoRepeats(s[..n]) {
          NoRepeatsMore(s[..n], s[n]);
        }
      }
    }
  }

  /** The list of an SCC holds each of its members once. */
  ghost predicate ListsExact(m: map<Node, SCC>, nodes: map<SCC, seq<Node>>) {
    forall c :: c in nodes ==> Elements(nodes[c]) == Members(m, c) && |nodes[c]| == |Members(m, c)|
  }

  lemma ListedExact(g: Graph, t: Tables)
    requires Sound(g, t)
    ensures ListsExact(t.sccMap, t.nodes)
  {
    hide NoRepeats;
    forall c | c in t.nodes ensures Elements(t.nodes[c]) == Members(t.sccMap, c) && |t.nodes[c]| == |Members(t.sccMap, c)| {
      ListedInGraph(g, t, c);
      NoRepeatsCount(t.nodes[c]);
    }
  }

  /** The SCC map and the node lists agree. */
  ghost predicate Listed(t: Tables) {
    && (forall v :: v in t.sccMap ==> t.sccMap[v] in t.nodes)
    && (forall c :: c in t.nodes ==> NoRepeats(t.nodes[c]))
    && (forall v, c :: c in t.nodes ==> (v in t.nodes[c] <==> v in t.sccMap && t.sccMap[v] == c))
  }

  ghost predicate Renumbered(g: Graph, num: map<Node, int>, num': map<Node, int>, s: set<Node>) {
    g.Keys <= num.Keys && num'.Keys == num.Keys && forall v :: v in g ==> num'[v] == if v in s then -1 else num[v]
  }

  ghost predicate Mapped(m: map<Node, SCC>, m': map<Node, SCC>, c: SCC, s: set<Node>) {
    && m'.Keys == m.Keys + s
    && forall v :: v in m' ==> m'[v] == if v in s then c else m[v]
  }

  /** `t'` is `t` after the nodes `s` were put into SCC `c`. */
  ghost predicate Moved(g: Graph, t: Tables, t': Tables, c: SCC, s: set<Node>) {
    && Renumbered(g, t.num, t'.num, s) && Renumbered(g, t.low, t'.low, s) && Mapped(t.sccMap, t'.sccMap, c, s)
    && t'.nodes.Keys == t.nodes.Keys && forall d :: d in t.nodes && d != c ==> t'.nodes[d] == t.nodes[d]
  }

  function Inserted(t: Tables, c: SCC, n: Node): Tables
    requires c in t.nodes
  {
    Tables(t.num[n := -1], t.low[n := -1], t.sccMap[n := c], t.nodes[c := t.nodes[c] + [n]])
  }

  ghost predicate Sound(g: Graph, t: Tables) {
    Placed(g, t) && Listed(t)
  }

  /** Inserting a node that has no SCC keeps the tables sound: it moves to `c`, numbered -1, and nothing else changes. */
  lemma InsertKeeps(g: Graph, t: Tables, c: SCC, n: Node)
    requires Sound(g, t) && c in t.nodes && n in g && n !in t.sccMap
    ensures Sound(g, Inserted(t, c, n)) && Moved(g, t, Inserted(t, c, n), c, {n}) && c in Inserted(t, c, n).nodes
  {
    hide Listed, Placed, Moved, Inserted;
    InsertListed(t, c, n);
    InsertPlaced(g, t, c, n);
  }

  lemma InsertPlaced(g: Graph, t: Tables, c: SCC, n: Node)
    requires Placed(g, t) && c in t.nodes && n in g && n !in t.sccMap
    ensures Placed(g, Inserted(t, c, n)) && Moved(g, t, Inserted(t, c, n), c, {n}) && c in Inserted(t, c, n).nodes
  {
  }

  lemma InsertListed(t: Tables, c: SCC, n: Node)
    requires Listed(t) && c in t.nodes && n !in t.sccMap
    ensures Listed(Inserted(t, c, n))
  {
    var t' := Inserted(t, c, n);
    NoRepeatsMore(t.nodes[c], n);
    hide NoRepeats;
    forall v, d | d in t'.nodes ensures v in t'.nodes[d] <==> v in t'.sccMap && t'.sccMap[v] == d {
      assert v in t.nodes[d] <==> v in t.sccMap && t.sccMap[v] == d;
    }
  }

  lemma MovedMore(g: Graph, t: Tables, t1: Tables, t2: Tables, c: SCC, s1: set<Node>, s2: set<Node>)
    requires Moved(g, t, t1, c, s1) && Moved(g, t1, t2, c, s2)
    ensures Moved(g, t, t2, c, s1 + s2)
  {
  }

  /** `p'` is `p` with `c` entered into the parent sets of `hit`. */
  ghost predicate Entered(p: map<SCC, set<SCC>>, p': map<SCC, set<SCC>>, c: SCC, hit: set<SCC>) {
    p'.Keys == p.Keys && forall d :: d in p ==> p'[d] == p[d] + if d in hit then {c} else {}
  }

  /** std::remove. */
  function Without(s: seq<SCC>, c: SCC): (r: seq<SCC>)
    ensures forall d :: d in r <==> d in s && d != c
  {
    if s == [] then [] else
    var rest := Without(s[1..], c);
    assert s == [s[0]] + s[1..];
    if s[0] == c then rest else [s[0]] + rest
  }

  /** What is left stays in its order. */
  lemma {:induction false} WithoutBoth(a: seq<SCC>, b: seq<SCC>, c: SCC)
    ensures Without(a + b, c) == Without(a, c) + Without(b, c)
  {
    if a == [] {
      assert a + b == b;
    } else {
      WithoutBoth(a[1..], b, c);
      assert (a + b)[1..] == a[1..] + b;
    }
  }

  lemma {:induction false} WithoutRepeats(s: seq<SCC>, c: SCC)
    requires NoRepeats(s)
    ensures NoRepeats(Without(s, c))
  {
    if s != [] {
      WithoutRepeats(s[1..], c);
      assert s[0] !in s[1..];
    }
  }

  lemma EnteredNothing(p: map<SCC, set<SCC>>, c: SCC)
    ensures Entered(p, p, c, {})
  {
  }

  lemma EnteredTwice(p: map<SCC, set<SCC>>, p1: map<SCC, set<SCC>>, p2: map<SCC, set<SCC>>, c: SCC, h1: set<SCC>, h2: set<SCC>)
    requires Entered(p, p1, c, h1) && Entered(p1, p2, c, h2)
    ensures Entered(p, p2, c, h1 + h2)
  {
  }

  /** The state of a walk whose stack, with the node being visited on top, is `stack`. */
  ghost function WalkOf(t: Tables, stack: seq<(Node, nat)>, pending: seq<Node>, par: map<Node, Node>): Walk {
    Walk(t.num, t.low, Firsts(stack), Seconds(stack), pending, par)
  }

  // ---------------------------------------------------------------- the steps of a walk on the tables

  lemma NumberedSound(g: Graph, t: Tables, c: Node, num: int, low: int)
    requires Sound(g, t) && c in g && c !in t.sccMap && num >= 0 && low >= 0
    ensures Sound(g, t.(num := t.num[c := num], low := t.low[c := low]))
  {
  }

  lemma TopOff(stack: seq<(Node, nat)>)
    requires stack != []
    ensures stack[..|stack| - 1] + [(stack[|stack| - 1].0, stack[|stack| - 1].1)] == stack
    ensures stack[..|stack| - 1] + [stack[|stack| - 1]] == stack
  {
  }

  /** The SCCs allocated so far are numbered below `count`. */
  ghost predicate Counted(nodes: map<SCC, seq<Node>>, count: nat) {
    forall c :: c in nodes ==> c < count
  }

  lemma CountedFresh(nodes: map<SCC, seq<Node>>, count: nat)
    requires Counted(nodes, count)
    ensures count !in nodes
  {
  }

  lemma CountedMore(nodes: map<SCC, seq<Node>>, count: nat, nodes': map<SCC, seq<Node>>)
    requires Counted(nodes, count) && forall d :: d in nodes' ==> d in nodes || d == count
    ensures Counted(nodes', count + 1)
  {
  }

  /** The stack with its last node `n` at the next edge. */
  function Onward(stack: seq<(Node, nat)>, n: Node, i: nat): seq<(Node, nat)> {
    stack + [(n, i + 1)]
  }

  lemma SoundNumbers(g: Graph, t: Tables, c: Node)
    requires Sound(g, t) && c in g
    ensures c in t.num && c in t.low
    ensures t.num[c] < 0 <==> c in t.sccMap
    ensures t.low[c] < 0 <==> c in t.sccMap
  {
  }

  lemma TopNumbers(a: Area, w: Walk, next: int)
    requires WalkInv(a, w, next)
    ensures next >= 1
    ensures w.path != [] ==> Top(w) in a.dom && a.dom <= w.num.Keys && a.dom <= w.low.Keys && Active(a, w, Top(w)) && 1 <= w.low[Top(w)]
  {
    if w.path != [] {
      assert Active(a, w, Top(w));
      assert LowOf(a, w, Top(w));
    }
  }

  lemma StepStart(t: Tables, a: Area, pending: seq<Node>, par: map<Node, Node>, next: int, r: Node)
    requires Sound(a.g, t) && WalkInv(a, WalkOf(t, [], pending, par), next)
    requires r in a.dom && r in a.g && r in t.num && t.num[r] == 0
    ensures var t' := t.(num := t.num[r := 1], low := t.low[r := 1]);
      Sound(a.g, t') && WalkInv(a, WalkOf(t', [(r, 0)], pending, par), 2)
  {
    hide WalkInv, Sound;
    var t' := t.(num := t.num[r := 1], low := t.low[r := 1]);
    SoundNumbers(a.g, t, r);
    NumberedSound(a.g, t, r, 1, 1);
    StartKeeps(a, WalkOf(t, [], pending, par), next, r);
    assert WalkOf(t', [(r, 0)], pending, par) == Started(WalkOf(t, [], pending, par), r);
  }

  lemma StepPush(t: Tables, a: Area, stack: seq<(Node, nat)>, pending: seq<Node>, par: map<Node, Node>, next: int,
                 n: Node, i: nat, c: Node, saved: nat)
    requires Sound(a.g, t) && WalkInv(a, WalkOf(t, stack + [(n, i)], pending, par), next) && saved <= i
    requires n in a.g && i < |a.g[n]| && c == a.g[n][i] && c in a.g && c in t.num && t.num[c] == 0
    ensures var t' := t.(num := t.num[c := next], low := t.low[c := next]);
      Sound(a.g, t') && WalkInv(a, WalkOf(t', stack + [(n, saved)] + [(c, 0)], pending, par[c := n]), next + 1)
  {
    hide WalkInv, Sound;
    var t' := t.(num := t.num[c := next], low := t.low[c := next]);
    var w := WalkOf(t, stack + [(n, i)], pending, par);
    TopNumbers(a, w, next);
    SoundNumbers(a.g, t, c);
    NumberedSound(a.g, t, c, next, next);
    PushKeeps(a, w, next, c, saved);
    assert WalkOf(t', stack + [(n, saved)] + [(c, 0)], pending, par[c := n]) == Pushed(w, c, next, saved);
  }

  lemma OldChild(t: Tables, a: Area, w: Walk, next: int, c: Node)
    requires Sound(a.g, t) && WalkInv(a, w, next) && w.num == t.num && w.low == t.low
    requires c in a.dom && c in a.g && c in t.num && t.num[c] != 0 && (c in t.sccMap ==> c in a.fin)
    ensures c in t.low && if Active(a, w, c) then 0 <= t.low[c] else t.low[c] < 0 && c in a.fin
  {
    if Active(a, w, c) {
      assert LowOf(a, w, c);
    }
  }

  /** The low link of `n` once the edge to `c` has been looked at (LazyCallGraph.cpp:660-661). */
  function NewLow(t: Tables, n: Node, c: Node): int {
    if c in t.low && n in t.low then if 0 <= t.low[c] < t.low[n] then t.low[c] else t.low[n] else 0
  }

  lemma LowChanged(t: Tables, n: Node, c: Node)
    requires n in t.low && c in t.low
    ensures t.low[n := NewLow(t, n, c)] == if 0 <= t.low[c] < t.low[n] then t.low[n := t.low[c]] else t.low
  {
  }

  lemma EdgeAt(g: Graph, n: Node, i: nat)
    requires n in g && i < |g[n]|
    ensures Edge(g, n, g[n][i])
  {
  }

  lemma StepAdvance(t: Tables, a: Area, stack: seq<(Node, nat)>, pending: seq<Node>, par: map<Node, Node>, next: int,
                    n: Node, i: nat, c: Node)
    requires Sound(a.g, t) && WalkInv(a, WalkOf(t, stack + [(n, i)], pending, par), next)
    requires n in a.dom && n in a.g && i < |a.g[n]| && c == a.g[n][i] && c in a.dom && c in a.g
    requires n in t.low && c in t.num && c in t.low && t.num[c] != 0 && (c in t.sccMap ==> c in a.fin)
    ensures var t' := t.(low := t.low[n := NewLow(t, n, c)]);
      Sound(a.g, t') && WalkInv(a, WalkOf(t', Onward(stack, n, i), pending, par), next)
  {
    hide WalkInv, Sound;
    var low := NewLow(t, n, c);
    var t' := t.(low := t.low[n := low]);
    var w := WalkOf(t, stack + [(n, i)], pending, par);
    TopNumbers(a, w, next);
    SoundNumbers(a.g, t, n);
    OldChild(t, a, w, next, c);
    NumberedSound(a.g, t, n, t.num[n], low);
    assert t.num[n := t.num[n]] == t.num;
    ShapeOf(a, w, next);
    AdvanceKeeps(a, w, next, c, low);
    assert WalkOf(t', Onward(stack, n, i), pending, par) == Advanced(w, low);
  }

  lemma ShapeOf(a: Area, w: Walk, next: int)
    requires WalkInv(a, w, next)
    ensures Shape(a, w)
  {
  }

  lemma StepPop(t: Tables, a: Area, stack: seq<(Node, nat)>, pending: seq<Node>, par: map<Node, Node>, next: int,
                n: Node, i: nat)
    requires WalkInv(a, WalkOf(t, stack + [(n, i)], pending, par), next)
    requires n in a.g && i == |a.g[n]| && n in t.num && n in t.low && t.low[n] != t.num[n]
    ensures stack != [] && WalkInv(a, WalkOf(t, stack, pending + [n], par), next)
  {
    hide WalkInv;
    var w := WalkOf(t, stack + [(n, i)], pending, par);
    PopKeeps(a, w, next);
    assert WalkOf(t, stack, pending + [n], par) == Popped(w);
  }

  /** The last pushed comes first. */
  ghost function Backwards(s: seq<Node>): (r: seq<Node>)
    ensures |r| == |s| && forall k :: 0 <= k < |s| ==> r[k] == s[|s| - 1 - k]
  {
    seq(|s|, (k: nat) requires k < |s| => s[|s| - 1 - k])
  }

  /** Between `t` and `t'` the nodes of `stack` from index `k` on, `s`, were put into SCC `c`, the last one first. */
  ghost predicate PopsTo(g: Graph, t: Tables, t': Tables, c: SCC, root: Node, stack: seq<Node>, k: nat, s: set<Node>)
  {
    && Sound(g, t') && Moved(g, t, t', c, s) && k <= |stack| && root in g && c in t'.nodes && c in t.nodes
    && t'.nodes[c] == t.nodes[c] + Backwards(stack[k..])
    && PoppedSet(g, t, root, stack, k, s)
  }

  ghost predicate PoppedSet(g: Graph, t: Tables, root: Node, stack: seq<Node>, k: nat, s: set<Node>) {
    && root in t.num && (forall v :: v in s ==> v in g && v in stack && v in t.num && t.num[v] > t.num[root])
    && (forall i :: 0 <= i < |stack| ==> (stack[i] in s <==> k <= i))
  }

  lemma PoppedMore(g: Graph, t: Tables, root: Node, stack: seq<Node>, k: nat, s: set<Node>)
    requires PoppedSet(g, t, root, stack, k, s) && 0 < k <= |stack| && Poppable(g, t, root, stack)
    requires stack[k - 1] in t.num && t.num[stack[k - 1]] > t.num[root]
    ensures PoppedSet(g, t, root, stack, k - 1, s + {stack[k - 1]})
  {
  }

  lemma ListedInGraph(g: Graph, t: Tables, c: SCC)
    requires Sound(g, t) && c in t.nodes
    ensures forall v :: v in t.nodes[c] ==> v in g
    ensures Elements(t.nodes[c]) == Members(t.sccMap, c)
  {
  }

  /** Between `t` and `t'` the nodes of `stack` from index `k` on, `s`, were put into SCC `c`. */
  ghost predicate InsertedFrom(g: Graph, t: Tables, t': Tables, c: SCC, stack: seq<Node>, k: nat, s: set<Node>) {
    && Sound(g, t') && Moved(g, t, t', c, s) && k <= |stack| && c in t'.nodes
    && (forall i :: 0 <= i < |stack| ==> (stack[i] in s <==> k <= i)) && (forall v :: v in s ==> v in stack)
  }

  ghost predicate Unplaced(g: Graph, t: Tables, stack: seq<Node>) {
    && (forall i :: 0 <= i < |stack| ==> stack[i] in g && stack[i] !in t.sccMap)
    && (forall i, j :: 0 <= i < j < |stack| ==> stack[i] != stack[j])
  }

  lemma InsertMore(g: Graph, t: Tables, t': Tables, c: SCC, stack: seq<Node>, k: nat, s: set<Node>)
    requires InsertedFrom(g, t, t', c, stack, k, s) && k > 0 && Unplaced(g, t, stack)
    ensures c in t'.nodes && InsertedFrom(g, t, Inserted(t', c, stack[k - 1]), c, stack, k - 1, s + {stack[k - 1]})
  {
    hide Listed, Placed;
    InsertKeeps(g, t', c, stack[k - 1]);
    MovedMore(g, t, t', Inserted(t', c, stack[k - 1]), c, s, {stack[k - 1]});
  }

  lemma UnplacedApart(g: Graph, t: Tables, stack1: seq<Node>, stack2: seq<Node>)
    requires Unplaced(g, t, stack1 + stack2)
    ensures Unplaced(g, t, stack1) && Unplaced(g, t, stack2)
  {
    var s := stack1 + stack2;
    assert forall i :: 0 <= i < |stack1| ==> s[i] == stack1[i];
    assert forall i :: 0 <= i < |stack2| ==> s[|stack1| + i] == stack2[i];
  }

  lemma UnplacedParts(g: Graph, t: Tables, n: Node, stack1: seq<Node>, stack2: seq<Node>)
    requires Unplaced(g, t, [n] + stack1 + stack2)
    ensures Unplaced(g, t, [n] + (stack1 + stack2)) && Unplaced(g, t, [n])
  {
    assert [n] + stack1 + stack2 == [n] + (stack1 + stack2);
    UnplacedApart(g, t, [n], stack1 + stack2);
  }

  /** After one stack has been placed the nodes of the other are still in no SCC. */
  lemma UnplacedAfter(g: Graph, t: Tables, t': Tables, c: SCC, stack1: seq<Node>, stack2: seq<Node>)
    requires Unplaced(g, t, stack1 + stack2) && Moved(g, t, t', c, Elements(stack1))
    ensures Unplaced(g, t', stack2)
  {
    var s := stack1 + stack2;
    UnplacedApart(g, t, stack1, stack2);
    forall i, j | 0 <= i < |stack2| && 0 <= j < |stack1| ensures stack1[j] != stack2[i] {
      assert s[j] != s[|stack1| + i];
    }
  }

  lemma InsertNone(g: Graph, t: Tables, c: SCC, stack: seq<Node>)
    requires Sound(g, t) && c in t.nodes
    ensures InsertedFrom(g, t, t, c, stack, |stack|, {})
  {
  }

  lemma InsertDone(g: Graph, t: Tables, t': Tables, c: SCC, stack: seq<Node>, s: set<Node>)
    requires InsertedFrom(g, t, t', c, stack, 0, s)
    ensures Sound(g, t') && Moved(g, t, t', c, Elements(stack))
  {
    hide Sound, Moved;
    assert s == Elements(stack);
  }

  /** The nodes of the stack and the root below them are different and in no SCC. */
  ghost predicate Poppable(g: Graph, t: Tables, root: Node, stack: seq<Node>) {
    && root in g && root !in t.sccMap && root !in stack
    && (forall i :: 0 <= i < |stack| ==> stack[i] in g && stack[i] !in t.sccMap)
    && (forall i, j :: 0 <= i < j < |stack| ==> stack[i] != stack[j])
    && g.Keys == t.num.Keys
  }

  lemma PopNothing(g: Graph, t: Tables, c: SCC, root: Node, stack: seq<Node>)
    requires Sound(g, t) && c in t.nodes && Poppable(g, t, root, stack)
    ensures PopsTo(g, t, t, c, root, stack, |stack|, {})
  {
  }

  lemma PopsKeepNumber(g: Graph, t: Tables, t': Tables, c: SCC, root: Node, stack: seq<Node>, k: nat, s: set<Node>)
    requires PopsTo(g, t, t', c, root, stack, k, s) && k > 0 && Poppable(g, t, root, stack)
    ensures t'.num.Keys == t.num.Keys && t'.num[stack[k - 1]] == t.num[stack[k - 1]] && t'.num[root] == t.num[root]
    ensures stack[k - 1] !in t'.sccMap
  {
  }

  lemma PopsInOrder(t: Tables, t': Tables, c: SCC, stack: seq<Node>, k: nat)
    requires 0 < k <= |stack| && c in t.nodes && c in t'.nodes && t'.nodes[c] == t.nodes[c] + Backwards(stack[k..])
    ensures c in Inserted(t', c, stack[k - 1]).nodes
    ensures Inserted(t', c, stack[k - 1]).nodes[c] == t.nodes[c] + Backwards(stack[k - 1..])
  {
    assert Backwards(stack[k - 1..]) == Backwards(stack[k..]) + [stack[k - 1]];
  }

  lemma PopsRoom(g: Graph, t: Tables, root: Node, stack: seq<Node>, k: nat)
    requires Poppable(g, t, root, stack) && 0 < k <= |stack|
    ensures stack[k - 1] in g
  {
  }

  lemma PopMore(g: Graph, t: Tables, t': Tables, c: SCC, root: Node, stack: seq<Node>, k: nat, s: set<Node>)
    requires PopsTo(g, t, t', c, root, stack, k, s) && k > 0 && Poppable(g, t, root, stack)
    requires t'.num[stack[k - 1]] > t'.num[root]
    ensures PopsTo(g, t, Inserted(t', c, stack[k - 1]), c, root, stack, k - 1, s + {stack[k - 1]})
  {
    PopsInOrder(t, t', c, stack, k);
    PopsKeepNumber(g, t, t', c, root, stack, k, s);
    hide Sound, Moved, Inserted, Backwards;
    PoppedMore(g, t, root, stack, k, s);
    hide PoppedSet;
    PopsRoom(g, t, root, stack, k);
    hide Poppable;
    InsertKeeps(g, t', c, stack[k - 1]);
    MovedMore(g, t, t', Inserted(t', c, stack[k - 1]), c, s, {stack[k - 1]});
  }

  /** `t'` has one more SCC, `c`, than `t`; its members were in no SCC before. */
  ghost predicate Grew(t: Tables, t': Tables, c: SCC) {
    && c !in t.nodes && t'.nodes.Keys == t.nodes.Keys + {c}
    && (forall d :: d in t.nodes ==> t'.nodes[d] == t.nodes[d])
    && NewMembers(t.sccMap, t'.sccMap, c) && Members(t'.sccMap, c) != {}
  }

  lemma GrewOnly(t0: Tables, t: Tables, t': Tables, c: SCC)
    requires Grew(t, t', c) && t0.nodes == t.nodes && t0.sccMap == t.sccMap
    ensures Grew(t0, t', c)
  {
  }

  lemma VisitsSeen(g: Graph, num: map<Node, int>, num': map<Node, int>, entries: set<Node>, left: seq<Node>)
    requires VisitsMore(num, num') && EntriesSeen(g, num, entries, left)
    ensures EntriesSeen(g, num', entries, left)
  {
  }

  /** The members of the new SCC `c` were in no SCC before. */
  ghost predicate NewMembers(m: map<Node, SCC>, m': map<Node, SCC>, c: SCC) {
    Members(m', c) !! m.Keys && Mapped(m, m', c, Members(m', c))
  }

  lemma FormedWalk(t: Tables, t': Tables, a: Area, stack: seq<(Node, nat)>, n: Node, w: Walk, next: int, c: SCC, rest: seq<Node>)
    requires WalkInv(a, w, next) && AtRoot(a, w) && w.num == t.num && w.low == t.low
    requires n in a.g && w.path == Firsts(stack) + [n] && w.idx == Seconds(stack) + [|a.g[n]|]
    requires c !in t.nodes && Moved(a.g, t.(nodes := t.nodes[c := []]), t', c, Component(a, w)) && Sound(a.g, t')
    requires rest <= w.pending && forall v :: v in rest <==> v in w.pending && v !in Component(a, w)
    ensures WalkInv(a.(fin := a.fin + Component(a, w)), WalkOf(t', stack, rest, w.par), next)
  {
    hide WalkInv, AtRoot, Shape, Component;
    var w' := WalkOf(t', stack, rest, w.par);
    ShapeOf(a, w, next);
    assert w'.path == w.path[..|w.path| - 1] && w'.idx == w.idx[..|w.path| - 1];
    FormKeeps(a, w, w', next);
  }

  lemma MovedKeys(t: Tables, t': Tables, g: Graph, c: SCC, s: set<Node>)
    requires Moved(g, t.(nodes := t.nodes[c := []]), t', c, s)
    ensures t'.sccMap.Keys == t.sccMap.Keys + s && t'.nodes.Keys == t.nodes.Keys + {c}
  {
  }

  lemma FormedVisits(t: Tables, t': Tables, a: Area, w: Walk, next: int, c: SCC, entries: set<Node>, left: seq<Node>)
    requires WalkInv(a, w, next) && w.path != [] && w.num == t.num && a.g.Keys == a.dom
    requires Sound(a.g, t) && c !in t.nodes && Moved(a.g, t.(nodes := t.nodes[c := []]), t', c, Component(a, w))
    ensures EntriesSeen(a.g, t.num, entries, left) ==> EntriesSeen(a.g, t'.num, entries, left)
    ensures VisitedFrom(a.g, t.num, entries) ==> VisitedFrom(a.g, t'.num, entries)
  {
    hide WalkInv, EntriesSeen, VisitedFrom, Shape;
    ShapeOf(a, w, next);
    ComponentVisited(a, w, next);
    NumbersMoved(a.g, t, t', c, Component(a, w), entries, left);
  }

  lemma ComponentVisited(a: Area, w: Walk, next: int)
    requires WalkInv(a, w, next) && w.path != []
    ensures forall v :: v in Component(a, w) ==> v in a.dom && v in w.num && w.num[v] != 0
  {
    assert forall v :: v in Component(a, w) ==> Active(a, w, v);
  }

  lemma NumbersMoved(g: Graph, t: Tables, t': Tables, c: SCC, s: set<Node>, entries: set<Node>, left: seq<Node>)
    requires Placed(g, t) && Renumbered(g, t.num, t'.num, s) && forall v :: v in s ==> v in t.num && t.num[v] != 0
    ensures EntriesSeen(g, t.num, entries, left) ==> EntriesSeen(g, t'.num, entries, left)
    ensures VisitedFrom(g, t.num, entries) ==> VisitedFrom(g, t'.num, entries)
  {
  }

  lemma FormedSCCs(t: Tables, t': Tables, a: Area, w: Walk, next: int, c: SCC)
    requires WalkInv(a, w, next) && AtRoot(a, w) && a.fin == t.sccMap.Keys
    requires Sound(a.g, t) && c !in t.nodes && Moved(a.g, t.(nodes := t.nodes[c := []]), t', c, Component(a, w))
    ensures AllSCCs(a.g, t.sccMap) ==> AllSCCs(a.g, t'.sccMap)
    ensures Grew(t, t', c) && Closed(a.g, t.sccMap.Keys)
  {
    ShapeOf(a, w, next);
    ComponentIsSCC(a, w, next);
    FormedMembers(a.g, t, t', c, Component(a, w));
  }

  lemma FormedMembers(g: Graph, t: Tables, t': Tables, c: SCC, s: set<Node>)
    requires Sound(g, t) && c !in t.nodes && Moved(g, t.(nodes := t.nodes[c := []]), t', c, s)
    requires IsSCC(g, s) && s !! t.sccMap.Keys
    ensures AllSCCs(g, t.sccMap) ==> AllSCCs(g, t'.sccMap)
    ensures Grew(t, t', c)
  {
    assert Members(t'.sccMap, c) == s;
    forall v | v in t.sccMap ensures Members(t'.sccMap, t'.sccMap[v]) == Members(t.sccMap, t.sccMap[v]) {
      assert v !in s;
    }
  }

  /** Forming `c` changes nothing about the calls between the other SCCs. */
  lemma CallsOld(g: Graph, m: map<Node, SCC>, m': map<Node, SCC>, c: SCC, s: set<Node>, d: SCC, e: SCC)
    requires Closed(g, m.Keys) && Mapped(m, m', c, s) && s !! m.Keys && c !in m.Values && d != c
    ensures Calls(g, m', d, e) <==> Calls(g, m, d, e)
  {
    if Calls(g, m', d, e) {
      var u :| u in m' && m'[u] == d && NodeCalls(g, m', u, e);
      assert NodeCalls(g, m, u, e);
    }
    if Calls(g, m, d, e) {
      var u :| u in m && m[u] == d && NodeCalls(g, m, u, e);
      assert NodeCalls(g, m', u, e);
    }
  }

  lemma FormedLeaves(g: Graph, t: Tables, t': Tables, c: SCC, hit: set<SCC>, leaves: seq<SCC>)
    requires Closed(g, t.sccMap.Keys) && Sound(g, t) && Grew(t, t', c)
    requires forall d :: d in hit <==> d != c && Calls(g, t'.sccMap, c, d)
    requires LeavesExact(g, t.sccMap, leaves)
    ensures LeavesExact(g, t'.sccMap, leaves + if hit == {} then [c] else [])
  {
    var m, m' := t.sccMap, t'.sccMap;
    var leaves' := leaves + if hit == {} then [c] else [];
    assert NoRepeats(leaves') by {
      NoRepeatsMore(leaves, c);
      assert leaves + [] == leaves;
    }
    hide NoRepeats;
    var s := Members(m', c);
    forall d ensures d in leaves' <==> d in m'.Values && IsLeaf(g, m', d) {
      if d == c {
        assert exists v :: v in s;
        assert IsLeaf(g, m', c) <==> hit == {} by {
          if hit != {} {
            var e :| e in hit;
          }
        }
      } else {
        forall e ensures Calls(g, m', d, e) <==> Calls(g, m, d, e) {
          CallsOld(g, m, m', c, s, d, e);
        }
        assert d in leaves' <==> d in leaves;
        assert d in m'.Values <==> d in m.Values by {
          if d in m.Values {
            var v :| v in m && m[v] == d;
            assert v in m' && m'[v] == d;
          }
        }
      }
    }
  }

  lemma FormedParents(g: Graph, t: Tables, t': Tables, c: SCC, hit: set<SCC>, parents: map<SCC, set<SCC>>,
                      parents': map<SCC, set<SCC>>)
    requires Closed(g, t.sccMap.Keys) && Sound(g, t) && Grew(t, t', c)
    requires forall d :: d in hit <==> d != c && Calls(g, t'.sccMap, c, d)
    requires Entered(parents[c := {}], parents', c, hit) && parents'.Keys == t'.nodes.Keys
    requires ParentsOf(g, t.sccMap, t.nodes.Keys, parents)
    ensures ParentsOf(g, t'.sccMap, t'.nodes.Keys, parents')
  {
    GrewMap(g, t, t', c);
    hide Sound, Grew, Mapped, Closed;
    assert c !in t.sccMap.Values;
    forall x, d | x in t'.nodes ensures d in parents'[x] <==> d != x && Calls(g, t'.sccMap, d, x) {
      if d != c {
        CallsOld(g, t.sccMap, t'.sccMap, c, Members(t'.sccMap, c), d, x);
        assert x == c ==> !Calls(g, t.sccMap, d, x);
      } else if x != c {
        assert !Calls(g, t.sccMap, c, x);
      }
    }
  }

  lemma WalkParts(t: Tables, stack: seq<(Node, nat)>, n: Node, i: nat, pending: seq<Node>, par: map<Node, Node>)
    ensures var w := WalkOf(t, stack + [(n, i)], pending, par);
      && w.path == Firsts(stack) + [n] && w.idx == Seconds(stack) + [i] && w.path != [] && Top(w) == n
      && w.idx != [] && w.idx[|w.idx| - 1] == i && w.num == t.num && w.low == t.low && w.pending == pending && w.par == par
  {
  }

  /** Everything FormFound has to know once the SCC `c` is formed. */
  lemma FormedAll(t: Tables, t': Tables, a: Area, stack: seq<(Node, nat)>, n: Node, w: Walk, next: int, c: SCC,
                  rest: seq<Node>, entries: set<Node>, left: seq<Node>)
    requires WalkInv(a, w, next) && AtRoot(a, w) && w.num == t.num && w.low == t.low
    requires a == Area(a.g, a.g.Keys, t.sccMap.Keys)
    requires n in a.g && w.path == Firsts(stack) + [n] && w.idx == Seconds(stack) + [|a.g[n]|]
    requires Sound(a.g, t) && c !in t.nodes && Moved(a.g, t.(nodes := t.nodes[c := []]), t', c, Component(a, w)) && Sound(a.g, t')
    requires rest <= w.pending && forall v :: v in rest <==> v in w.pending && v !in Component(a, w)
    ensures WalkInv(Area(a.g, a.g.Keys, t'.sccMap.Keys), WalkOf(t', stack, rest, w.par), next)
    ensures EntriesSeen(a.g, t.num, entries, left) ==> EntriesSeen(a.g, t'.num, entries, left)
    ensures VisitedFrom(a.g, t.num, entries) ==> VisitedFrom(a.g, t'.num, entries)
    ensures AllSCCs(a.g, t.sccMap) ==> AllSCCs(a.g, t'.sccMap)
    ensures Grew(t, t', c) && Closed(a.g, t.sccMap.Keys) && t'.nodes.Keys == t.nodes.Keys + {c}
  {
    hide WalkInv, Shape, Sound, Moved, Component, Grew, EntriesSeen, VisitedFrom, AllSCCs, AtRoot, Closed;
    FormedWalk(t, t', a, stack, n, w, next, c, rest);
    ShapeOf(a, w, next);
    MovedKeys(t, t', a.g, c, Component(a, w));
    FormedVisits(t, t', a, w, next, c, entries, left);
    FormedSCCs(t, t', a, w, next, c);
  }

  /** All that FormFound has to establish. */
  lemma FormedState(t: Tables, t': Tables, a: Area, stack: seq<(Node, nat)>, n: Node, w: Walk, next: int, c: SCC, rest: seq<Node>,
                    entries: set<Node>, left: seq<Node>, hit: set<SCC>, parents: map<SCC, set<SCC>>,
                    parents': map<SCC, set<SCC>>, leaves: seq<SCC>)
    requires WalkInv(a, w, next) && AtRoot(a, w) && w.num == t.num && w.low == t.low
    requires a == Area(a.g, a.g.Keys, t.sccMap.Keys)
    requires n in a.g && w.path == Firsts(stack) + [n] && w.idx == Seconds(stack) + [|a.g[n]|]
    requires Sound(a.g, t) && c !in t.nodes && Moved(a.g, t.(nodes := t.nodes[c := []]), t', c, Component(a, w)) && Sound(a.g, t')
    requires rest <= w.pending && forall v :: v in rest <==> v in w.pending && v !in Component(a, w)
    requires Entered(parents[c := {}], parents', c, hit) && forall d :: d in hit <==> d != c && Calls(a.g, t'.sccMap, c, d)
    requires KnownParents(t.nodes.Keys, parents) && AllSCCs(a.g, t.sccMap) && LeavesExact(a.g, t.sccMap, leaves)
    ensures WalkInv(Area(a.g, a.g.Keys, t'.sccMap.Keys), WalkOf(t', stack, rest, w.par), next)
    ensures EntriesSeen(a.g, t.num, entries, left) ==> EntriesSeen(a.g, t'.num, entries, left)
    ensures VisitedFrom(a.g, t.num, entries) ==> VisitedFrom(a.g, t'.num, entries)
    ensures AllSCCs(a.g, t'.sccMap) && Grew(t, t', c) && KnownParents(t'.nodes.Keys, parents')
    ensures LeavesExact(a.g, t'.sccMap, leaves + if hit == {} then [c] else [])
    ensures ParentsOf(a.g, t.sccMap, t.nodes.Keys, parents) ==> ParentsOf(a.g, t'.sccMap, t'.nodes.Keys, parents')
    ensures forall d :: d in t'.nodes ==> d in t.nodes || d == c
  {
    hide WalkInv, Sound, AllSCCs, LeavesExact, VisitedFrom, EntriesSeen, ParentsOf, Entered, Moved, Grew, AtRoot, Shape, Calls, Component;
    FormedAll(t, t', a, stack, n, w, next, c, rest, entries, left);
    KnownMore(t.nodes.Keys, parents, parents', c, hit);
    FormedLeaves(a.g, t, t', c, hit, leaves);
    if ParentsOf(a.g, t.sccMap, t.nodes.Keys, parents) {
      KnownKeys(t'.nodes.Keys, parents');
      FormedParents(a.g, t, t', c, hit, parents, parents');
    }
  }

  lemma KnownKeys(sccs: set<SCC>, parents: map<SCC, set<SCC>>)
    requires KnownParents(sccs, parents)
    ensures parents.Keys == sccs
  {
  }

  lemma NoElements(s: seq<Node>)
    ensures Elements(s[..0]) == {} && s[..|s|] == s
  {
  }

  lemma ElementsNext(s: seq<Node>, k: nat)
    requires k < |s|
    ensures Elements(s[..k + 1]) == Elements(s[..k]) + {s[k]}
  {
    assert s[..k + 1] == s[..k] + [s[k]];
  }

  lemma RootReached(a: Area, w: Walk, next: int)
    requires WalkInv(a, w, next) && w.path != [] && Top(w) in a.g && w.idx != [] && w.idx[|w.idx| - 1] == |a.g[Top(w)]|
    requires Top(w) in w.low && Top(w) in w.num && w.low[Top(w)] == w.num[Top(w)]
    ensures AtRoot(a, w)
  {
  }

  /** Every entry node is still to be handled or has been visited. */
  ghost predicate EntriesSeen(g: Graph, num: map<Node, int>, entries: set<Node>, left: seq<Node>) {
    && (forall e :: e in left ==> e in g && e in entries)
    && forall e :: e in entries ==> e in g && e in num && (e in left || num[e] != 0)
  }

  lemma Untouched(g: Graph, t: Tables, entries: set<Node>, left: seq<Node>)
    requires WellFormed(g) && t.num == (map v | v in g :: 0) && t.low == (map v | v in g :: 0)
    requires t.sccMap == map[] && t.nodes == map[]
    requires entries == (set e | e in left) && forall e :: e in left ==> e in g
    ensures Sound(g, t) && AllSCCs(g, t.sccMap) && LeavesExact(g, t.sccMap, []) && ParentsOf(g, t.sccMap, t.nodes.Keys, map[])
    ensures WalkInv(Area(g, g.Keys, t.sccMap.Keys), WalkOf(t, [], [], map[]), 1)
    ensures EntriesSeen(g, t.num, entries, left) && VisitedFrom(g, t.num, entries)
  {
    hide WalkInv;
    NothingActive(Area(g, g.Keys, t.sccMap.Keys), WalkOf(t, [], [], map[]), 1);
  }

  lemma EntriesDone(t: Tables, a: Area, w: Walk, next: int, entries: set<Node>)
    requires Sound(a.g, t) && WalkInv(a, w, next) && w.num == t.num && w.path == [] && a.dom == a.g.Keys
    requires EntriesSeen(a.g, t.num, entries, [])
    ensures entries <= t.sccMap.Keys
  {
    forall e | e in entries ensures e in t.sccMap {
      assert !Active(a, w, e);
    }
  }

  lemma EntryPopped(t: Tables, g: Graph, entries: set<Node>, left: seq<Node>)
    requires Sound(g, t) && EntriesSeen(g, t.num, entries, left) && left != []
    ensures var n := left[|left| - 1];
      n in g && n in t.num && (t.num[n] != 0 ==> EntriesSeen(g, t.num, entries, left[..|left| - 1]))
  {
    var n := left[|left| - 1];
    assert left == left[..|left| - 1] + [n];
  }

  lemma EntryStarted(t: Tables, g: Graph, entries: set<Node>, left: seq<Node>)
    requires Sound(g, t) && EntriesSeen(g, t.num, entries, left) && left != []
    ensures var n := left[|left| - 1];
      && EntriesSeen(g, t.num[n := 1], entries, left[..|left| - 1])
      && (VisitedFrom(g, t.num, entries) ==> VisitedFrom(g, t.num[n := 1], entries))
  {
    var n := left[|left| - 1];
    assert left == left[..|left| - 1] + [n];
    ReachRefl(g, n);
  }

  ghost function White(num: map<Node, int>): set<Node> {
    set v | v in num && num[v] == 0
  }

  /** Nodes that have been visited stay so. */
  ghost predicate VisitsMore(num: map<Node, int>, num': map<Node, int>) {
    num.Keys == num'.Keys && forall v :: v in num && num[v] != 0 ==> num'[v] != 0
  }

  lemma VisitsSame(num: map<Node, int>)
    ensures VisitsMore(num, num)
  {
  }

  lemma VisitsTwice(num0: map<Node, int>, num1: map<Node, int>, num2: map<Node, int>)
    requires VisitsMore(num0, num1) && VisitsMore(num1, num2)
    ensures VisitsMore(num0, num2)
  {
  }

  lemma VisitsMoved(g: Graph, t: Tables, t': Tables, c: SCC, s: set<Node>)
    requires Moved(g, t, t', c, s) && Sound(g, t)
    ensures VisitsMore(t.num, t'.num)
  {
  }

  lemma VisitsFormed(g: Graph, t: Tables, t': Tables, r: SCC, s: set<Node>)
    requires Sound(g, t) && r !in t.nodes && Moved(g, t.(nodes := t.nodes[r := []]), t', r, s)
    ensures VisitsMore(t.num, t'.num)
  {
  }

  lemma VisitsStay(num: map<Node, int>, num': map<Node, int>)
    requires VisitsMore(num, num')
    ensures num'.Keys == num.Keys && forall v :: v in num && num[v] != 0 ==> num'[v] != 0
  {
  }

  lemma VisitsWhite(num: map<Node, int>, num': map<Node, int>)
    requires VisitsMore(num, num')
    ensures White(num') <= White(num)
  {
  }

  lemma VisitsOne(num0: map<Node, int>, num: map<Node, int>, c: Node, x: int)
    requires VisitsMore(num0, num) && c in num && num[c] == 0 && x != 0
    ensures VisitsMore(num0, num[c := x]) && White(num[c := x]) < White(num)
  {
    assert c in White(num) && c !in White(num[c := x]);
  }

  /** Descending to `c` visits one node more, which is reachable if the nodes visited before were. */
  lemma VisitChild(a: Area, w: Walk, next: int, entries: set<Node>, c: Node, num0: map<Node, int>)
    requires WalkInv(a, w, next) && w.path != [] && Edge(a.g, Top(w), c) && VisitsMore(num0, w.num)
    requires c in w.num && w.num[c] == 0
    ensures VisitedFrom(a.g, w.num, entries) ==> VisitedFrom(a.g, w.num[c := next], entries)
    ensures VisitsMore(num0, w.num[c := next]) && White(w.num[c := next]) < White(w.num)
  {
    hide Reach;
    assert Active(a, w, Top(w));
    if VisitedFrom(a.g, w.num, entries) {
      var e :| e in entries && Reach(a.g, e, Top(w));
      ReachEdge(a.g, Top(w), c);
      ReachTrans(a.g, e, Top(w), c);
    }
    assert c in White(w.num) && c !in White(w.num[c := next]);
  }

  lemma TopIndex(a: Area, w: Walk, next: int)
    requires WalkInv(a, w, next) && w.path != []
    ensures Top(w) in a.dom && Top(w) in a.g && |w.idx| == |w.path| && w.idx[|w.path| - 1] <= |a.g[Top(w)]|
  {
    assert Active(a, w, Top(w));
  }

  lemma TopEdge(a: Area, t: Tables, stack: seq<(Node, nat)>, pending: seq<Node>, par: map<Node, Node>, next: int)
    requires WalkInv(a, WalkOf(t, stack, pending, par), next) && stack != []
    ensures stack[|stack| - 1].0 in a.g && stack[|stack| - 1].1 <= |a.g[stack[|stack| - 1].0]|
  {
    hide WalkInv;
    TopIndex(a, WalkOf(t, stack, pending, par), next);
  }

  ghost predicate FromEntry(g: Graph, entries: set<Node>, v: Node) {
    exists e :: e in entries && Reach(g, e, v)
  }

  ghost predicate VisitedFrom(g: Graph, num: map<Node, int>, entries: set<Node>) {
    forall v :: v in num && num[v] != 0 ==> FromEntry(g, entries, v)
  }

  ghost predicate AllSCCs(g: Graph, m: map<Node, SCC>) {
    forall v :: v in m ==> IsSCC(g, Members(m, m[v]))
  }

  ghost predicate LeavesExact(g: Graph, m: map<Node, SCC>, leaves: seq<SCC>) {
    NoRepeats(leaves) && forall c :: c in leaves <==> c in m.Values && IsLeaf(g, m, c)
  }

  lemma OnceEach(g: Graph, t: Tables, leaves: seq<SCC>)
    requires Sound(g, t) && LeavesExact(g, t.sccMap, leaves)
    ensures ListsExact(t.sccMap, t.nodes) && NoRepeats(leaves)
  {
    ListedExact(g, t);
  }

  ghost predicate KnownParents(sccs: set<SCC>, parents: map<SCC, set<SCC>>) {
    parents.Keys == sccs && forall c, d :: c in parents && d in parents[c] ==> d in sccs
  }

  lemma KnownMore(sccs: set<SCC>, parents: map<SCC, set<SCC>>, parents': map<SCC, set<SCC>>, c: SCC, hit: set<SCC>)
    requires KnownParents(sccs, parents) && Entered(parents[c := {}], parents', c, hit)
    ensures KnownParents(sccs + {c}, parents')
  {
  }

  lemma KnownEntered(sccs: set<SCC>, parents: map<SCC, set<SCC>>, parents': map<SCC, set<SCC>>, c: SCC, hit: set<SCC>)
    requires KnownParents(sccs, parents) && Entered(parents, parents', c, hit) && c in sccs
    ensures KnownParents(sccs, parents')
  {
  }

  ghost predicate ParentsOf(g: Graph, m: map<Node, SCC>, sccs: set<SCC>, parents: map<SCC, set<SCC>>) {
    parents.Keys == sccs && forall c, d :: c in sccs ==> (d in parents[c] <==> d != c && Calls(g, m, d, c))
  }

  /** The pops of FormSCC stop at the nodes that were visited before the root. */
  lemma AfterPops(a: Area, w: Walk, next: int, k: nat, s: set<Node>)
    requires Shape(a, w) && Numbers(a, w, next) && Suffixes(a, w) && w.path != [] && k <= |w.pending|
    requires forall v :: v in s ==> v in w.pending && w.num[v] > w.num[Top(w)]
    requires forall i :: 0 <= i < |w.pending| ==> (w.pending[i] in s <==> k <= i)
    requires k > 0 ==> w.num[w.pending[k - 1]] <= w.num[Top(w)]
    ensures forall v :: v in w.pending[..k] <==> v in w.pending && v !in Component(a, w)
    ensures s + {Top(w)} == Component(a, w) && Top(w) !in s
  {
    forall i | 0 <= i < |w.pending| ensures w.pending[i] in Component(a, w) <==> w.pending[i] in s {
      assert w.num[w.pending[i]] > w.num[Top(w)] <==> k <= i;
    }
    assert forall v :: v in Component(a, w) && v != Top(w) ==> v in w.pending;
  }

  /** Before the pops of FormSCC. */
  lemma FormReady(g: Graph, t: Tables, a: Area, w: Walk, c: SCC)
    requires Shape(a, w) && w.path != [] && a.g == g && w.num == t.num && w.low == t.low && c !in t.nodes
    requires Sound(g, t)
    ensures Poppable(g, t.(nodes := t.nodes[c := []]), Top(w), w.pending)
    ensures Sound(g, t.(nodes := t.nodes[c := []]))
  {
    assert Active(a, w, Top(w));
  }

  /** After the pops of FormSCC. */
  lemma FormDone(g: Graph, t: Tables, t': Tables, a: Area, w: Walk, next: int, c: SCC, k: nat, s: set<Node>)
    requires WalkInv(a, w, next) && w.path != [] && a.g == g && w.num == t.num && w.low == t.low
    requires Poppable(g, t, Top(w), w.pending) && PopsTo(g, t, t', c, Top(w), w.pending, k, s)
    requires k > 0 ==> t.num[w.pending[k - 1]] <= t.num[Top(w)]
    ensures Sound(g, Inserted(t', c, Top(w))) && Moved(g, t, Inserted(t', c, Top(w)), c, Component(a, w))
    ensures c in t.nodes && c in Inserted(t', c, Top(w)).nodes
    ensures Inserted(t', c, Top(w)).nodes[c] == t.nodes[c] + Backwards(w.pending[k..]) + [Top(w)]
    ensures forall v :: v in w.pending[..k] <==> v in w.pending && v !in Component(a, w)
  {
    AfterPops(a, w, next, k, s);
    InsertKeeps(g, t', c, Top(w));
    MovedMore(g, t, t', Inserted(t', c, Top(w)), c, s, {Top(w)});
  }

  /** After the members of the component are in SCC `c`. */
  lemma ConnectReady(g: Graph, t: Tables, t': Tables, a: Area, w: Walk, next: int, c: SCC)
    requires WalkInv(a, w, next) && AtRoot(a, w) && a.g == g && a.fin <= t.sccMap.Keys && c !in t.nodes
    requires Sound(g, t) && Sound(g, t') && Moved(g, t.(nodes := t.nodes[c := []]), t', c, Component(a, w))
    ensures t'.nodes.Keys == t.nodes.Keys + {c} && t'.sccMap.Keys == t.sccMap.Keys + Component(a, w)
    ensures forall v :: v in t'.nodes[c] <==> v in t'.sccMap && t'.sccMap[v] == c
    ensures forall v :: v in t'.sccMap ==> v in g && t'.sccMap[v] in t'.nodes
    ensures forall u, v :: u in t'.sccMap && t'.sccMap[u] == c && Edge(g, u, v) ==> v in t'.sccMap
  {
    hide Sound, Moved, Shape, Closed;
    ShapeOf(a, w, next);
    ComponentClosed(a, w, next);
    CallsInside(g, t, t', a.fin, Component(a, w), c);
  }

  lemma CallsInside(g: Graph, t: Tables, t': Tables, fin: set<Node>, s: set<Node>, c: SCC)
    requires fin <= t.sccMap.Keys && c !in t.nodes && Closed(g, fin + s)
    requires Sound(g, t) && Sound(g, t') && Moved(g, t.(nodes := t.nodes[c := []]), t', c, s)
    ensures t'.nodes.Keys == t.nodes.Keys + {c} && t'.sccMap.Keys == t.sccMap.Keys + s
    ensures forall v :: v in t'.nodes[c] <==> v in t'.sccMap && t'.sccMap[v] == c
    ensures forall v :: v in t'.sccMap ==> v in g && t'.sccMap[v] in t'.nodes
    ensures forall u, v :: u in t'.sccMap && t'.sccMap[u] == c && Edge(g, u, v) ==> v in t'.sccMap
  {
    hide Sound, Moved, Closed;
    MovedKeys(t, t', g, c, s);
    SoundLists(g, t');
    forall u, v | u in t'.sccMap && t'.sccMap[u] == c && Edge(g, u, v) ensures v in t'.sccMap {
      NewMember(g, t, t', c, s, u);
      ClosedEdge(g, fin + s, u, v);
    }
  }

  lemma SoundLists(g: Graph, t: Tables)
    requires Sound(g, t)
    ensures forall v, c :: c in t.nodes ==> (v in t.nodes[c] <==> v in t.sccMap && t.sccMap[v] == c)
    ensures forall v :: v in t.sccMap ==> v in g && t.sccMap[v] in t.nodes
  {
  }

  lemma NewMember(g: Graph, t: Tables, t': Tables, c: SCC, s: set<Node>, u: Node)
    requires Sound(g, t) && c !in t.nodes && Moved(g, t.(nodes := t.nodes[c := []]), t', c, s)
    requires u in t'.sccMap && t'.sccMap[u] == c
    ensures u in s
  {
    SoundLists(g, t);
    hide Sound, Renumbered;
  }

  lemma ClosedEdge(g: Graph, s: set<Node>, u: Node, v: Node)
    requires Closed(g, s) && u in s && Edge(g, u, v)
    ensures v in s
  {
  }

  /** What a listed SCC reaches is in SCCs listed no later. */
  ghost predicate PostOrdered(g: Graph, m: map<Node, SCC>, sccs: seq<SCC>) {
    forall k, u, v {:trigger m[u], sccs[k], Reach(g, u, v)} ::
      0 <= k < |sccs| && u in m && m[u] == sccs[k] && Reach(g, u, v) ==> v in m && m[v] in sccs[..k + 1]
  }

  /** `sccs` are the SCCs formed so far, in post-order. */
  ghost predicate Enumerated(g: Graph, t: Tables, sccs: seq<SCC>) {
    && PostOrdered(g, t.sccMap, sccs)
    && (forall c :: c in t.nodes <==> c in sccs)
    && (forall j, k :: 0 <= j < k < |sccs| ==> sccs[j] != sccs[k])
    && (forall c :: c in sccs ==> Members(t.sccMap, c) != {})
  }

  lemma EnumeratedNothing(g: Graph, t: Tables)
    requires t.sccMap == map[] && t.nodes == map[]
    ensures Enumerated(g, t, [])
  {
  }

  lemma SCCsClosed(a: Area, w: Walk, next: int)
    requires WalkInv(a, w, next)
    ensures Closed(a.g, a.fin)
  {
  }

  lemma GrewMap(g: Graph, t: Tables, t': Tables, c: SCC)
    requires Sound(g, t) && Grew(t, t', c)
    ensures c !in t.nodes && t'.nodes.Keys == t.nodes.Keys + {c} && t.sccMap.Keys <= t'.sccMap.Keys
    ensures forall v :: v in t.sccMap ==> t.sccMap[v] in t.nodes && t'.sccMap[v] == t.sccMap[v]
    ensures forall v :: v in t'.sccMap && v !in t.sccMap ==> t'.sccMap[v] == c
    ensures Mapped(t.sccMap, t'.sccMap, c, Members(t'.sccMap, c)) && Members(t'.sccMap, c) !! t.sccMap.Keys
  {
    hide Placed;
  }

  lemma OrderedAt(g: Graph, t: Tables, t': Tables, c: SCC, sccs: seq<SCC>, k: nat, u: Node, v: Node)
    requires Sound(g, t) && Grew(t, t', c) && Closed(g, t'.sccMap.Keys)
    requires PostOrdered(g, t.sccMap, sccs) && forall d :: d in t.nodes <==> d in sccs
    requires k <= |sccs| && u in t'.sccMap && t'.sccMap[u] == (sccs + [c])[k] && Reach(g, u, v)
    ensures v in t'.sccMap && t'.sccMap[v] in (sccs + [c])[..k + 1]
  {
    GrewMap(g, t, t', c);
    hide Sound, Grew, Reach, Mapped, Closed;
    if k == |sccs| {
      ReachStays(g, t'.sccMap.Keys, u, v);
      assert (sccs + [c])[..k + 1] == sccs + [c];
    } else {
      assert sccs[k] in sccs;
      assert u in t.sccMap && t.sccMap[u] == sccs[k];
      assert (sccs + [c])[..k + 1] == sccs[..k + 1];
    }
  }

  lemma PostOrderedMore(g: Graph, t: Tables, t': Tables, c: SCC, sccs: seq<SCC>)
    requires Sound(g, t) && Sound(g, t') && Grew(t, t', c) && Closed(g, t'.sccMap.Keys)
    requires PostOrdered(g, t.sccMap, sccs) && forall d :: d in t.nodes <==> d in sccs
    ensures PostOrdered(g, t'.sccMap, sccs + [c])
  {
    hide Sound, Grew, Closed, Reach;
    forall k, u, v | 0 <= k < |sccs + [c]| && u in t'.sccMap && t'.sccMap[u] == (sccs + [c])[k] && Reach(g, u, v)
      ensures v in t'.sccMap && t'.sccMap[v] in (sccs + [c])[..k + 1]
    {
      OrderedAt(g, t, t', c, sccs, k, u, v);
    }
  }

  lemma EnumeratedMore(g: Graph, t: Tables, t': Tables, c: SCC, sccs: seq<SCC>)
    requires Sound(g, t) && Sound(g, t') && Grew(t, t', c) && Closed(g, t'.sccMap.Keys) && Enumerated(g, t, sccs)
    ensures Enumerated(g, t', sccs + [c]) && g.Keys - t'.sccMap.Keys < g.Keys - t.sccMap.Keys
  {
    PostOrderedMore(g, t, t', c, sccs);
    var v :| v in Members(t'.sccMap, c);
    assert v in g.Keys - t.sccMap.Keys && v !in g.Keys - t'.sccMap.Keys;
    forall d | d in sccs + [c] ensures Members(t'.sccMap, d) != {} {
      if d != c {
        var u :| u in Members(t.sccMap, d);
        assert u in Members(t'.sccMap, d);
      }
    }
  }

  lemma EnumeratedSame(g: Graph, t: Tables, t': Tables, sccs: seq<SCC>)
    requires Enumerated(g, t, sccs) && t.sccMap == t'.sccMap && t.nodes == t'.nodes
    ensures Enumerated(g, t', sccs)
  {
  }

  lemma EnumeratedAll(g: Graph, t: Tables, sccs: seq<SCC>)
    requires Sound(g, t) && Enumerated(g, t, sccs) && AllSCCs(g, t.sccMap)
    ensures forall k :: 0 <= k < |sccs| ==> IsSCC(g, Members(t.sccMap, sccs[k]))
    ensures forall j, k :: 0 <= j < k < |sccs| ==> sccs[j] != sccs[k]
    ensures PostOrdered(g, t.sccMap, sccs) && forall v :: v in t.sccMap ==> t.sccMap[v] in sccs
  {
    hide IsSCC, Reach;
    forall k | 0 <= k < |sccs| ensures IsSCC(g, Members(t.sccMap, sccs[k])) {
      var v :| v in Members(t.sccMap, sccs[k]);
    }
  }

  /** At the end of the walk the nodes in SCCs are those the entry nodes reach. */
  lemma ReachedFromEntries(g: Graph, t: Tables, entries: set<Node>)
    requires Sound(g, t) && VisitedFrom(g, t.num, entries) && Closed(g, t.sccMap.Keys) && entries <= t.sccMap.Keys
    ensures forall v :: v in t.sccMap <==> FromEntry(g, entries, v)
  {
    hide Reach, Closed, Listed;
    forall v | FromEntry(g, entries, v) ensures v in t.sccMap {
      var e :| e in entries && Reach(g, e, v);
      ReachStays(g, t.sccMap.Keys, e, v);
    }
  }
}
