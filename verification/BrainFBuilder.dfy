/**
 The control-flow graph while examples/BrainF/BrainF.cpp is building it: blocks are created, filled and
 ended by branches, and phi nodes get their incoming values one by one.  `Built` says that every finished
 block has one terminator and every phi one value per predecessor; `Grown` and `LoopDone` say what a call
 of readloop has emitted so far.  Each way of adding to the graph keeps them.
 */
module BrainFBuilder {
  import opened BrainFCode
  import opened BrainFEmission
  import opened BrainFLanguage
  import opened Wrappers

  function Added(code: Code, phi: Phi): Code {
    code + [Block(phi, [])]
  }

  function Appended(code: Code, b: nat, ins: seq<Instr>): Code
    requires b < |code|
  {
    code[b := code[b].(code := code[b].code + ins)]
  }

  /** Value `v` comes into block `b` from block `from`. */
  function WithIncoming(code: Code, b: nat, v: Reg, from: nat): Code
    requires b < |code| && code[b].phi.Phi?
  {
    code[b := code[b].(phi := code[b].phi.(incoming := code[b].phi.incoming + [(v, from)]))]
  }

  predicate Ended(b: Block) {
    b.code != [] && IsTerminator(b.code[|b.code| - 1])
  }

  function Successors(b: Block): set<nat> {
    if Ended(b) then Targets(b.code[|b.code| - 1]) else {}
  }

  /** Block `b` has exactly one incoming value for each of its predecessors, and none besides. */
  ghost predicate PhiMatches(code: Code, b: nat)
    requires b < |code| && code[b].phi.Phi?
  {
    var inc := code[b].phi.incoming;
    && (forall j, k :: 0 <= j < k < |inc| ==> inc[j].1 != inc[k].1)
    && (forall k :: 0 <= k < |inc| ==> inc[k].1 < |code| && b in Successors(code[inc[k].1]))
    && (forall p :: 0 <= p < |code| && b in Successors(code[p]) ==> exists k :: 0 <= k < |inc| && inc[k].1 == p)
  }

  predicate BlockFormed(b: Block) {
    forall i :: 0 <= i < |b.code| - 1 ==> !IsTerminator(b.code[i])
  }

  /** Every block is a list of instructions with at most one terminator, at its end; the blocks `open` have none yet. */
  ghost predicate OpenBlocks(code: Code, open: set<nat>) {
    && (forall b :: b in open ==> b < |code|)
    && (forall b :: 0 <= b < |code| ==> BlockFormed(code[b]) && (b in open <==> !Ended(code[b])))
  }

  ghost predicate EdgesInside(code: Code) {
    forall b, t :: 0 <= b < |code| && t in Successors(code[b]) ==> t < |code|
  }

  ghost predicate PhisMatch(code: Code) {
    forall b :: 0 <= b < |code| && code[b].phi.Phi? ==> PhiMatches(code, b)
  }

  /** A graph in which only the blocks `open` have no terminator yet. */
  ghost predicate Built(code: Code, open: set<nat>) {
    OpenBlocks(code, open) && EdgesInside(code) && PhisMatch(code)
  }

  lemma AddedBuilt(code: Code, open: set<nat>, phi: Phi)
    requires Built(code, open) && (phi.Phi? ==> phi.incoming == [])
    ensures Built(Added(code, phi), open + {|code|}) && Extends(code, Added(code, phi))
  {
    var code' := Added(code, phi);
    forall b | 0 <= b < |code'| && code'[b].phi.Phi? ensures PhiMatches(code', b) {
      if b < |code| {
        assert PhiMatches(code, b);
        var inc := code[b].phi.incoming;
        forall p | 0 <= p < |code'| && b in Successors(code'[p]) ensures exists k :: 0 <= k < |inc| && inc[k].1 == p {
          assert p < |code|;
        }
      }
    }
  }

  /** Instructions without a terminator change no edge. */
  lemma AppendedBuilt(code: Code, open: set<nat>, b: nat, ins: seq<Instr>)
    requires Built(code, open) && b in open && forall i :: i in ins ==> !IsTerminator(i)
    ensures Built(Appended(code, b, ins), open) && Extends(code, Appended(code, b, ins))
  {
    var code' := Appended(code, b, ins);
    NotEnded(code[b], code'[b], ins);
    SameEdges(code, code');
    forall k | 0 <= k < |code| && code'[k].phi.Phi? ensures PhiMatches(code', k) {
      PhiStillMatches(code, code', k);
    }
  }

  lemma NotEnded(b: Block, b': Block, ins: seq<Instr>)
    requires BlockFormed(b) && !Ended(b) && b'.code == b.code + ins && forall i :: i in ins ==> !IsTerminator(i)
    ensures BlockFormed(b') && !Ended(b')
  {
    forall i | 0 <= i < |b'.code| ensures !IsTerminator(b'.code[i]) {
      assert i >= |b.code| ==> b'.code[i] in ins;
    }
  }

  lemma SameEdges(code: Code, code': Code)
    requires |code| == |code'| && forall k :: 0 <= k < |code| ==> code'[k] == code[k] || (!Ended(code[k]) && !Ended(code'[k]))
    ensures forall k :: 0 <= k < |code| ==> Successors(code'[k]) == Successors(code[k])
  {
  }

  lemma PhiStillMatches(code: Code, code': Code, k: nat)
    requires |code| == |code'| && k < |code| && code[k].phi.Phi? && code'[k].phi == code[k].phi && PhiMatches(code, k)
    requires forall p :: 0 <= p < |code| ==> (k in Successors(code'[p]) <==> k in Successors(code[p]))
    ensures PhiMatches(code', k)
  {
  }

  /** The terminator `i` at the end of block `b`. */
  lemma EndedBy(b: Block, b': Block, i: Instr)
    requires BlockFormed(b) && !Ended(b) && b'.code == b.code + [i] && IsTerminator(i)
    ensures BlockFormed(b') && Ended(b') && Successors(b') == Targets(i) && Successors(b) == {}
  {
    forall k | 0 <= k < |b'.code| - 1 ensures !IsTerminator(b'.code[k]) {
      assert b'.code[k] == b.code[k];
    }
  }

  /** A block ends with a jump to blocks that have no phi node. */
  lemma JumpBuilt(code: Code, open: set<nat>, b: nat, i: Instr)
    requires Built(code, open) && b in open && IsTerminator(i)
    requires forall t :: t in Targets(i) ==> t < |code| && code[t].phi.NoPhi?
    ensures Built(Appended(code, b, [i]), open - {b}) && Extends(code, Appended(code, b, [i]))
  {
    var code' := Appended(code, b, [i]);
    EndedBy(code[b], code'[b], i);
    forall k | 0 <= k < |code| && code'[k].phi.Phi? ensures PhiMatches(code', k) {
      PhiStillMatches(code, code', k);
    }
  }

  /** Block `b` has become a predecessor of `t` and `t` has got an incoming value for it. */
  lemma PhiGains(code: Code, code': Code, b: nat, t: nat, v: Reg)
    requires |code| == |code'| && b < |code| && t < |code| && code[t].phi.Phi? && code'[t].phi.Phi?
    requires PhiMatches(code, t) && Successors(code[b]) == {} && t in Successors(code'[b])
    requires forall p :: 0 <= p < |code| && p != b ==> Successors(code'[p]) == Successors(code[p])
    requires code'[t].phi.incoming == code[t].phi.incoming + [(v, b)]
    ensures PhiMatches(code', t) && Incoming(code'[t].phi.incoming, b) == Some(v)
  {
    hide Successors, Incoming;
    var inc, inc' := code[t].phi.incoming, code'[t].phi.incoming;
    forall k | 0 <= k < |inc| ensures inc[k].1 != b {
      assert t in Successors(code[inc[k].1]);
    }
    IncomingNone(inc, b);
    IncomingLast(inc, v, b);
    forall p | 0 <= p < |code'| && t in Successors(code'[p]) ensures exists k :: 0 <= k < |inc'| && inc'[k].1 == p {
      if p == b {
        assert inc'[|inc|].1 == p;
      } else {
        var k :| 0 <= k < |inc| && inc[k].1 == p;
        assert inc'[k].1 == p;
      }
    }
  }

  /** `code'` is `code` with jump `i` at the end of block `b`, and value `v` coming into block `t` by it. */
  ghost predicate Jumped(code: Code, code': Code, b: nat, i: Instr, t: nat, v: Reg)
    requires b < |code| && t < |code| && code[t].phi.Phi?
  {
    code' == WithIncoming(Appended(code, b, [i]), t, v, b)
  }

  lemma JumpedBlocks(code: Code, code': Code, b: nat, i: Instr, t: nat, v: Reg)
    requires b < |code| && t < |code| && code[t].phi.Phi? && Jumped(code, code', b, i, t, v)
    ensures |code'| == |code| && code'[b].code == code[b].code + [i] && code'[t].phi.Phi?
    ensures code'[t].phi == code[t].phi.(incoming := code[t].phi.incoming + [(v, b)])
    ensures forall k :: 0 <= k < |code| && k != b ==> code'[k].code == code[k].code
    ensures forall k :: 0 <= k < |code| && k != t ==> code'[k].phi == code[k].phi
    ensures Extends(code, code')
  {
  }

  /** Block `b` has been ended by `i`. */
  ghost predicate EndedAt(code: Code, code': Code, b: nat, i: Instr) {
    && b < |code| && |code'| == |code| && code'[b].code == code[b].code + [i]
    && (forall k :: 0 <= k < |code| && k != b ==> code'[k].code == code[k].code)
  }

  lemma EndedEdges(code: Code, code': Code, open: set<nat>, b: nat, i: Instr)
    requires OpenBlocks(code, open) && EdgesInside(code) && b in open && IsTerminator(i) && EndedAt(code, code', b, i)
    requires forall x :: x in Targets(i) ==> x < |code|
    ensures OpenBlocks(code', open - {b}) && EdgesInside(code')
    ensures Successors(code[b]) == {} && Successors(code'[b]) == Targets(i)
    ensures forall k :: 0 <= k < |code| && k != b ==> Successors(code'[k]) == Successors(code[k])
  {
    EndedBy(code[b], code'[b], i);
    hide Targets;
    forall k, x | 0 <= k < |code'| && x in Successors(code'[k]) ensures x < |code'| {
      assert k != b ==> x in Successors(code[k]);
    }
  }

  lemma PhisStillMatch(code: Code, code': Code, b: nat, i: Instr, t: nat)
    requires PhisMatch(code) && |code'| == |code| && b < |code| && t < |code| && code'[t].phi.Phi? && PhiMatches(code', t)
    requires forall k :: 0 <= k < |code| && k != t ==> code'[k].phi == code[k].phi
    requires Successors(code[b]) == {} && Successors(code'[b]) == Targets(i)
    requires forall k :: 0 <= k < |code| && k != b ==> Successors(code'[k]) == Successors(code[k])
    requires forall x :: x in Targets(i) && x != t ==> x < |code| && code[x].phi.NoPhi?
    ensures PhisMatch(code')
  {
    hide Successors, Targets;
    forall k | 0 <= k < |code| && k != t && code'[k].phi.Phi? ensures PhiMatches(code', k) {
      PhiStillMatches(code, code', k);
    }
  }

  /** A block ends with a jump to `t`, which gets an incoming value, and perhaps to a block without a phi node. */
  lemma JumpInBuilt(code: Code, code': Code, open: set<nat>, b: nat, i: Instr, t: nat, v: Reg)
    requires Built(code, open) && b in open && IsTerminator(i) && t in Targets(i) && t < |code| && code[t].phi.Phi?
    requires forall x :: x in Targets(i) && x != t ==> x < |code| && code[x].phi.NoPhi?
    requires b < |code| && Jumped(code, code', b, i, t, v)
    ensures Built(code', open - {b}) && Extends(code, code')
    ensures code'[t].phi.Phi? && Incoming(code'[t].phi.incoming, b) == Some(v)
  {
    JumpedBlocks(code, code', b, i, t, v);
    hide Jumped, Extends, Incoming, Targets, Successors, OpenBlocks, EdgesInside;
    EndedEdges(code, code', open, b, i);
    PhiGains(code, code', b, t, v);
    PhisStillMatch(code, code', b, i, t);
  }

  // ---------------------------------------------------------------- what a call of readloop has emitted

  /** The graph and the insertion point when a call of readloop starts, and the other unfinished blocks. */
  datatype Site = Site(code: Code, others: set<nat>, at: Pos)

  /** Only block `s.at.block` of those that were there, and `also`, have been written to. */
  ghost predicate OnlyAt(s: Site, code: Code, also: set<nat>) {
    |s.code| <= |code| && forall k :: 0 <= k < |s.code| && k != s.at.block && k !in also ==> code[k] == s.code[k]
  }

  /** Block `bb` is where the call that started at `s` goes on. */
  ghost predicate Here(s: Site, code: Code, bb: nat) {
    && bb < |code| && (bb == s.at.block || bb >= |s.code|)
    && bb !in s.others && (forall o :: o in s.others ==> o < |s.code|)
    && Built(code, s.others + {bb})
  }

  /** The call that started at `s` has emitted `ops` and goes on in block `bb`. */
  ghost predicate Grown(bounds: bool, s: Site, ops: seq<Op>, code: Code, bb: nat, head: Reg, unused: Reg) {
    && Extends(s.code, code) && OnlyAt(s, code, {})
    && Here(s, code, bb)
    && Emitted(code, bounds, ops, s.at)
    && AfterAll(bounds, ops, s.at) == Pos(bb, |code[bb].code|, head)
    && unused > head > ARRMAX
  }

  lemma GrownNothing(bounds: bool, s: Site, unused: Reg)
    requires Here(s, s.code, s.at.block) && s.at.idx == |s.code[s.at.block].code| && unused > s.at.head > ARRMAX
    ensures Grown(bounds, s, [], s.code, s.at.block, s.at.head, unused)
  {
    hide Built;
    forall k | 0 <= k < |s.code| ensures BlockExtends(s.code[k], s.code[k]) {
    }
  }

  /** One more operation. */
  lemma GrownMore(bounds: bool, s: Site, ops: seq<Op>, code: Code, bb: nat, head: Reg, unused: Reg,
                  op: Op, code': Code, bb': nat, head': Reg, unused': Reg)
    requires Grown(bounds, s, ops, code, bb, head, unused)
    requires Extends(code, code') && (forall k :: 0 <= k < |code| && k != bb ==> code'[k] == code[k])
    requires EmittedOp(code', bounds, op, Pos(bb, |code[bb].code|, head))
    requires bb' < |code'| && (bb' == bb || bb' >= |code|)
    requires After(bounds, op, Pos(bb, |code[bb].code|, head)) == Pos(bb', |code'[bb'].code|, head')
    requires Built(code', s.others + {bb} - {bb} + {bb'}) && unused' > head' > ARRMAX
    ensures Grown(bounds, s, ops + [op], code', bb', head', unused')
  {
    hide Built, Extends, EmittedOp;
    ExtendsTwice(s.code, code, code');
    EmittedStill(code, code', bounds, ops, s.at);
    EmittedOne(code', bounds, op, Pos(bb, |code[bb].code|, head));
    EmittedBoth(code', bounds, ops, [op], s.at);
    assert s.others + {bb} - {bb} + {bb'} == s.others + {bb'};
  }

  lemma EmittedOne(code: Code, bounds: bool, op: Op, p: Pos)
    requires EmittedOp(code, bounds, op, p) && p.head > ARRMAX && After(bounds, op, p).head > ARRMAX
    ensures Emitted(code, bounds, [op], p) && AfterAll(bounds, [op], p) == After(bounds, op, p)
  {
    assert [op][1..] == [];
  }

  lemma GrownHere(bounds: bool, s: Site, ops: seq<Op>, code: Code, bb: nat, head: Reg, unused: Reg)
    requires Grown(bounds, s, ops, code, bb, head, unused)
    ensures bb < |code| && Built(code, s.others + {bb}) && unused > head > ARRMAX && !Ended(code[bb])
  {
  }

  /** Instructions without a terminator at the insertion point. */
  lemma AppendedHere(code: Code, bb: nat, ins: seq<Instr>)
    requires bb < |code|
    ensures Holds(Appended(code, bb, ins), bb, |code[bb].code|, ins)
    ensures |Appended(code, bb, ins)[bb].code| == |code[bb].code| + |ins|
    ensures forall k :: 0 <= k < |code| && k != bb ==> Appended(code, bb, ins)[k] == code[k]
  {
  }

  /** Operations that are emitted into one block. */
  lemma GrownStraight(bounds: bool, s: Site, ops: seq<Op>, code: Code, bb: nat, head: Reg, unused: Reg,
                      op: Op, ins: seq<Instr>, head': Reg, unused': Reg)
    requires Grown(bounds, s, ops, code, bb, head, unused) && unused' > head' > ARRMAX
    requires forall i :: i in ins ==> !IsTerminator(i)
    requires EmittedOp(Appended(code, bb, ins), bounds, op, Pos(bb, |code[bb].code|, head))
    requires After(bounds, op, Pos(bb, |code[bb].code|, head)) == Pos(bb, |code[bb].code| + |ins|, head')
    ensures Grown(bounds, s, ops + [op], Appended(code, bb, ins), bb, head', unused')
  {
    hide Grown, Built, EmittedOp, Extends, Appended;
    GrownHere(bounds, s, ops, code, bb, head, unused);
    AppendedBuilt(code, s.others + {bb}, bb, ins);
    AppendedHere(code, bb, ins);
    assert s.others + {bb} - {bb} + {bb} == s.others + {bb};
    GrownMore(bounds, s, ops, code, bb, head, unused, op, Appended(code, bb, ins), bb, head', unused');
  }

  /** The graph behind a checked move of the head, whose code goes on in a new block. */
  function Checked(code: Code, bb: nat, to: Reg, t: Reg, head: Reg, k: int): Code
    requires bb < |code|
  {
    var moved := Appended(code, bb, [Gep(to, head, k)]);
    var compared := Appended(moved, bb, [UGe(t, to, ARRMAX), ULt(t + 1, to, ARR), Or(t + 2, t, t + 1)]);
    Appended(Added(compared, NoPhi), bb, [CondBr(t + 2, ABERRORBB, |code|)])
  }

  lemma CheckedShape(code: Code, bb: nat, to: Reg, t: Reg, head: Reg, k: int)
    requires bb < |code|
    ensures var code' := Checked(code, bb, to, t, head, k);
      && |code'| == |code| + 1 && code'[|code|] == Block(NoPhi, [])
      && Holds(code', bb, |code[bb].code|, [Gep(to, head, k)])
      && Holds(code', bb, |code[bb].code| + 1, CheckCode(t, to, |code|))
      && forall k :: 0 <= k < |code| && k != bb ==> code'[k] == code[k]
  {
  }

  lemma CheckedBuilt(code: Code, others: set<nat>, bb: nat, to: Reg, t: Reg, head: Reg, k: int)
    requires bb < |code| && Built(code, others + {bb})
    requires |code| > ABERRORBB && code[ABERRORBB].phi.NoPhi?
    ensures Built(Checked(code, bb, to, t, head, k), others + {bb} - {bb} + {|code|})
    ensures Extends(code, Checked(code, bb, to, t, head, k))
  {
    var ins := [UGe(t, to, ARRMAX), ULt(t + 1, to, ARR), Or(t + 2, t, t + 1)];
    var moved := Appended(code, bb, [Gep(to, head, k)]);
    var compared := Appended(moved, bb, ins);
    var added := Added(compared, NoPhi);
    var code' := Appended(added, bb, [CondBr(t + 2, ABERRORBB, |code|)]);
    assert added[ABERRORBB].phi.NoPhi?;
    hide Built, Extends, Appended;
    AppendedBuilt(code, others + {bb}, bb, [Gep(to, head, k)]);
    AppendedBuilt(moved, others + {bb}, bb, ins);
    AddedBuilt(compared, others + {bb}, NoPhi);
    JumpBuilt(added, others + {bb} + {|code|}, bb, CondBr(t + 2, ABERRORBB, |code|));
    ExtendsTwice(code, moved, compared);
    ExtendsTwice(code, compared, added);
    ExtendsTwice(code, added, code');
    assert others + {bb} + {|code|} - {bb} == others + {bb} - {bb} + {|code|};
  }

  lemma GrownChecked(s: Site, ops: seq<Op>, code: Code, bb: nat, head: Reg, unused: Reg, run: seq<Cmd>)
    requires Grown(true, s, ops, code, bb, head, unused)
    requires |code| > ABERRORBB && code[ABERRORBB].phi.NoPhi?
    requires run != [] && forall c :: c in run ==> c == Left || c == Right
    ensures Grown(true, s, ops + [OpMove(run, unused, unused + 1, |code|)],
                  Checked(code, bb, unused, unused + 1, head, Net(run)), |code|, unused, unused + 4)
  {
    hide Grown, Built, Extends, Checked;
    GrownHere(true, s, ops, code, bb, head, unused);
    CheckedBuilt(code, s.others, bb, unused, unused + 1, head, Net(run));
    CheckedShape(code, bb, unused, unused + 1, head, Net(run));
    GrownMore(true, s, ops, code, bb, head, unused, OpMove(run, unused, unused + 1, |code|),
              Checked(code, bb, unused, unused + 1, head, Net(run)), |code|, unused, unused + 4);
  }

  // ---------------------------------------------------------------- loops

  /** The graph at the start of a loop: a test block with its phi node, entered from `bb`, and a block for the body. */
  function LoopEntered(code: Code, bb: nat, head: Reg, phi: Reg): Code
    requires bb < |code|
  {
    var tested := Added(code, Phi(phi, []));
    Added(WithIncoming(Appended(tested, bb, [Br(|code|)]), |code|, head, bb), NoPhi)
  }

  lemma LoopEnteredBuilt(code: Code, others: set<nat>, bb: nat, head: Reg, phi: Reg)
    requires bb < |code| && Built(code, others + {bb}) && forall o :: o in others + {bb} ==> o < |code|
    ensures var code' := LoopEntered(code, bb, head, phi);
      && Built(code', (others + {bb} - {bb}) + {|code|} + {|code| + 1}) && Extends(code, code')
      && |code'| == |code| + 2 && code'[|code| + 1] == Block(NoPhi, [])
      && code'[|code|].code == []
      && Joins(code', Pos(bb, |code[bb].code|, head), |code|, phi)
      && forall k :: 0 <= k < |code| && k != bb ==> code'[k] == code[k]
  {
    var tested := Added(code, Phi(phi, []));
    var joined := WithIncoming(Appended(tested, bb, [Br(|code|)]), |code|, head, bb);
    var code' := Added(joined, NoPhi);
    assert Holds(code', bb, |code[bb].code|, [Br(|code|)]);
    AddedBuilt(code, others + {bb}, Phi(phi, []));
    assert Jumped(tested, joined, bb, Br(|code|), |code|, head);
    hide Built, Extends, Incoming;
    JumpInBuilt(tested, joined, others + {bb} + {|code|}, bb, Br(|code|), |code|, head);
    AddedBuilt(joined, others + {bb} + {|code|} - {bb}, NoPhi);
    ExtendsTwice(code, tested, joined);
    ExtendsTwice(code, joined, code');
    assert others + {bb} + {|code|} - {bb} + {|joined|} == (others + {bb} - {bb}) + {|code|} + {|code| + 1};
  }

  /** The call that started at `s`, in a loop whose test is block `test`, has closed the loop. */
  ghost predicate LoopDone(bounds: bool, s: Site, ops: seq<Op>, test: nat, phi: Reg, code: Code, t: Reg, exit: nat,
                           exitHead: Reg, unused: Reg)
  {
    && Extends(s.code, code) && OnlyAt(s, code, {test})
    && Emitted(code, bounds, ops, s.at)
    && Joins(code, AfterAll(bounds, ops, s.at), test, phi)
    && LoopClosed(code, test, phi, t, exit, exitHead, s.at.block)
    && exit >= |s.code| && exit < |code| && code[exit].code == []
    && Built(code, s.others - {test} + {exit})
    && unused > exitHead > t > phi
  }

  /** Back to the test at the end of a loop. */
  function LoopBack(code: Code, bb: nat, head: Reg, test: nat): Code
    requires bb < |code| && test < |code| && code[test].phi.Phi?
  {
    WithIncoming(Appended(code, bb, [Br(test)]), test, head, bb)
  }

  /** The test of a loop, and a block to go on in. */
  function LoopTested(code: Code, test: nat, phi: Reg, start: nat, t: Reg): Code
    requires test < |code|
  {
    var loaded := Appended(code, test, [Load(t, phi), IsZero(t + 1, t)]);
    var added := Added(loaded, Phi(t + 2, []));
    WithIncoming(Appended(added, test, [CondBr(t + 1, |code|, start)]), |code|, phi, test)
  }

  function LoopEnded(code: Code, bb: nat, head: Reg, test: nat, phi: Reg, start: nat, t: Reg): Code
    requires bb < |code| && test < |code| && code[test].phi.Phi?
  {
    LoopTested(LoopBack(code, bb, head, test), test, phi, start, t)
  }

  lemma LoopTestedShape(code: Code, test: nat, phi: Reg, start: nat, t: Reg)
    requires test < |code| && start < |code| && code[start].phi.NoPhi?
    ensures var loaded := Appended(code, test, [Load(t, phi), IsZero(t + 1, t)]);
            var added := Added(loaded, Phi(t + 2, []));
            var code' := LoopTested(code, test, phi, start, t);
      && |loaded| == |code| && |added| == |code| + 1 && added[start].phi.NoPhi? && added[|code|].phi == Phi(t + 2, [])
      && Jumped(added, code', test, CondBr(t + 1, |code|, start), |code|, phi)
      && |code'| == |code| + 1 && code'[test].phi == code[test].phi && code'[|code|].phi.Phi?
  {
  }

  lemma LoopTestedBuilt(code: Code, others: set<nat>, test: nat, phi: Reg, start: nat, t: Reg)
    requires test < |code| && Built(code, others) && test in others
    requires start < |code| && code[start].phi.NoPhi?
    ensures var code' := LoopTested(code, test, phi, start, t);
      && Built(code', others - {test} + {|code|}) && Extends(code, code') && |code'| == |code| + 1
      && code'[test].phi == code[test].phi
      && code'[|code|].phi.Phi? && Incoming(code'[|code|].phi.incoming, test) == Some(phi)
  {
    var loaded := Appended(code, test, [Load(t, phi), IsZero(t + 1, t)]);
    var added := Added(loaded, Phi(t + 2, []));
    var code' := LoopTested(code, test, phi, start, t);
    hide Built, Extends, Incoming, Jumped, Appended, Added, LoopTested;
    LoopTestedShape(code, test, phi, start, t);
    AppendedBuilt(code, others, test, [Load(t, phi), IsZero(t + 1, t)]);
    AddedBuilt(loaded, others, Phi(t + 2, []));
    JumpInBuilt(added, code', others + {|code|}, test, CondBr(t + 1, |code|, start), |code|, phi);
    ExtendsTwice(code, loaded, added);
    ExtendsTwice(code, added, code');
    assert others + {|code|} - {test} == others - {test} + {|code|};
  }

  lemma LoopEndedBuilt(code: Code, others: set<nat>, bb: nat, head: Reg, test: nat, phi: Reg, start: nat, t: Reg)
    requires bb < |code| && test < |code| && code[test].phi.Phi? && Built(code, others + {bb}) && test in others && bb !in others
    requires start < |code| && code[start].phi.NoPhi?
    ensures var code' := LoopEnded(code, bb, head, test, phi, start, t);
      && Built(code', others - {test} + {|code|}) && Extends(code, code')
      && |code'| == |code| + 1 && code'[|code|].phi.Phi? && code'[test].phi.Phi?
      && Incoming(code'[|code|].phi.incoming, test) == Some(phi)
      && Incoming(code'[test].phi.incoming, bb) == Some(head)
  {
    var joined := LoopBack(code, bb, head, test);
    assert Jumped(code, joined, bb, Br(test), test, head);
    assert joined[start].phi.NoPhi? && |joined| == |code|;
    hide Built, Extends, Incoming, Jumped, LoopTested, LoopBack;
    JumpInBuilt(code, joined, others + {bb}, bb, Br(test), test, head);
    assert others + {bb} - {bb} == others;
    LoopTestedBuilt(joined, others, test, phi, start, t);
    ExtendsTwice(code, joined, LoopTested(joined, test, phi, start, t));
  }

  lemma LoopEndedShape(code: Code, bb: nat, head: Reg, test: nat, phi: Reg, start: nat, t: Reg)
    requires bb < |code| && test < |code| && code[test].phi.Phi?
    ensures var code' := LoopEnded(code, bb, head, test, phi, start, t);
      && |code'| == |code| + 1 && code'[|code|].code == [] && code'[|code|].phi.Phi? && code'[|code|].phi.dst == t + 2
      && forall k :: 0 <= k < |code| && k != bb && k != test ==> code'[k] == code[k]
  {
  }

  lemma LoopEndedHolds(code: Code, bb: nat, head: Reg, test: nat, phi: Reg, start: nat, t: Reg)
    requires bb < |code| && test < |code| && code[test].phi.Phi? && code[test].code == [] && bb != test
    ensures Holds(LoopEnded(code, bb, head, test, phi, start, t), bb, |code[bb].code|, [Br(test)])
    ensures Holds(LoopEnded(code, bb, head, test, phi, start, t), test, 0, TestCode(t, phi, |code|, start))
  {
  }

  lemma LoopEndedJoins(code: Code, others: set<nat>, bb: nat, head: Reg, test: nat, phi: Reg, start: nat, t: Reg)
    requires bb < |code| && test < |code| && code[test].phi.Phi? && code[test].phi.dst == phi && code[test].code == []
    requires Built(code, others + {bb}) && test in others && bb !in others
    requires start < |code| && code[start].phi.NoPhi?
    ensures Joins(LoopEnded(code, bb, head, test, phi, start, t), Pos(bb, |code[bb].code|, head), test, phi)
    ensures LoopClosed(LoopEnded(code, bb, head, test, phi, start, t), test, phi, t, |code|, t + 2, start)
  {
    hide Built, Incoming, LoopEnded, Holds, Extends, BlockExtends;
    LoopEndedBuilt(code, others, bb, head, test, phi, start, t);
    LoopEndedShape(code, bb, head, test, phi, start, t);
    LoopEndedHolds(code, bb, head, test, phi, start, t);
    NoPhiStill(code, LoopEnded(code, bb, head, test, phi, start, t), start);
    SamePhi(code, LoopEnded(code, bb, head, test, phi, start, t), test);
  }

  lemma LoopIsDone(bounds: bool, s: Site, ops: seq<Op>, code: Code, bb: nat, head: Reg, unused: Reg, test: nat, phi: Reg)
    requires Grown(bounds, s, ops, code, bb, head, unused)
    requires test in s.others && test < |code| && code[test].phi.Phi? && code[test].phi.dst == phi && code[test].code == [] && phi < unused
    requires s.at.block < |s.code| && s.code[s.at.block].phi.NoPhi?
    ensures s.at.block < |code|
    ensures LoopDone(bounds, s, ops, test, phi, LoopEnded(code, bb, head, test, phi, s.at.block, unused), unused, |code|, unused + 2, unused + 3)
  {
    NoPhiStill(s.code, code, s.at.block);
    hide Built, LoopEnded, Emitted, Extends, Joins, LoopClosed;
    var code' := LoopEnded(code, bb, head, test, phi, s.at.block, unused);
    LoopEndedBuilt(code, s.others, bb, head, test, phi, s.at.block, unused);
    LoopEndedShape(code, bb, head, test, phi, s.at.block, unused);
    LoopEndedJoins(code, s.others, bb, head, test, phi, s.at.block, unused);
    ExtendsTwice(s.code, code, code');
    EmittedStill(code, code', bounds, ops, s.at);
  }

  lemma SamePhi(code: Code, code': Code, b: nat)
    requires Extends(code, code') && b < |code| && code[b].phi.Phi?
    ensures b < |code'| && code'[b].phi.Phi? && code'[b].phi.dst == code[b].phi.dst
  {
    assert BlockExtends(code[b], code'[b]);
  }

  /** The loop as one more operation of the call around it. */
  lemma GrownLoop(bounds: bool, s: Site, ops: seq<Op>, code: Code, bb: nat, head: Reg, unused: Reg,
                  body: seq<Op>, code': Code, t: Reg, exit: nat, exitHead: Reg, unused': Reg)
    requires Grown(bounds, s, ops, code, bb, head, unused) && bb < |code|
    requires LoopDone(bounds, InLoop(s, code, bb, head, unused), body, |code|, unused, code', t, exit, exitHead, unused')
    ensures Grown(bounds, s, ops + [OpLoop(body, |code| + 1, |code|, unused, t, exit, exitHead)], code', exit, exitHead, unused')
  {
    var s' := InLoop(s, code, bb, head, unused);
    hide Built, Extends, Emitted, LoopClosed, LoopEntered, Joins;
    GrownHere(bounds, s, ops, code, bb, head, unused);
    BuiltRange(code, s.others + {bb});
    LoopEnteredBuilt(code, s.others, bb, head, unused);
    GrownOthers(bounds, s, ops, code, bb, head, unused);
    hide Grown;
    JoinsStill(s'.code, code', Pos(bb, |code[bb].code|, head), |code|, unused);
    LoopEmitted(bounds, s', body, |code|, unused, code', t, exit, exitHead, unused', Pos(bb, |code[bb].code|, head));
    ExtendsTwice(code, s'.code, code');
    assert s'.others - {|code|} + {exit} == s.others + {bb} - {bb} + {exit};
    hide EmittedOp;
    GrownMore(bounds, s, ops, code, bb, head, unused, OpLoop(body, |code| + 1, |code|, unused, t, exit, exitHead),
              code', exit, exitHead, unused');
  }

  lemma LoopEmitted(bounds: bool, s: Site, body: seq<Op>, test: nat, phi: Reg, code: Code, t: Reg, exit: nat, exitHead: Reg,
                    unused: Reg, p: Pos)
    requires LoopDone(bounds, s, body, test, phi, code, t, exit, exitHead, unused)
    requires Joins(code, p, test, phi) && s.at == Pos(s.at.block, 0, phi) && phi > ARRMAX
    ensures EmittedOp(code, bounds, OpLoop(body, s.at.block, test, phi, t, exit, exitHead), p)
  {
    hide Built, Extends, Emitted, LoopClosed, Joins, OnlyAt;
  }

  lemma BuiltRange(code: Code, open: set<nat>)
    requires Built(code, open)
    ensures forall b :: b in open ==> b < |code|
  {
  }

  lemma GrownOthers(bounds: bool, s: Site, ops: seq<Op>, code: Code, bb: nat, head: Reg, unused: Reg)
    requires Grown(bounds, s, ops, code, bb, head, unused)
    ensures bb !in s.others && forall o :: o in s.others ==> o < |code|
  {
  }

  /** Where the body of a loop starts that is entered from block `bb`. */
  function InLoop(s: Site, code: Code, bb: nat, head: Reg, unused: Reg): Site
    requires bb < |code|
  {
    Site(LoopEntered(code, bb, head, unused), s.others + {|code|}, Pos(|code| + 1, 0, unused))
  }

  /**
   The test and the body of a loop begin empty, with everything in place that the body needs to be emitted; no other
   block is touched.
   */
  lemma LoopStarts(bounds: bool, s: Site, ops: seq<Op>, code: Code, bb: nat, head: Reg, unused: Reg)
    requires Grown(bounds, s, ops, code, bb, head, unused) && bb < |code|
    ensures var s' := InLoop(s, code, bb, head, unused);
      && Here(s', s'.code, |code| + 1) && |s'.code| == |code| + 2
      && s'.code[|code| + 1] == Block(NoPhi, []) && s'.code[|code|].phi.Phi? && s'.code[|code|].phi.dst == unused
      && s'.code[|code|].code == [] && |code| in s'.others
      && forall k :: 0 <= k < |code| && k != bb ==> s'.code[k] == code[k]
  {
    var s' := InLoop(s, code, bb, head, unused);
    hide Built, Extends, Emitted, LoopClosed, LoopEntered;
    GrownHere(bounds, s, ops, code, bb, head, unused);
    BuiltRange(code, s.others + {bb});
    GrownOthers(bounds, s, ops, code, bb, head, unused);
    LoopEnteredBuilt(code, s.others, bb, head, unused);
    assert (s.others + {bb} - {bb}) + {|code|} + {|code| + 1} == s'.others + {|code| + 1};
  }

  // ---------------------------------------------------------------- the end of the program

  lemma ProgramEnds(bounds: bool, s: Site, ops: seq<Op>, code: Code, bb: nat, head: Reg, unused: Reg)
    requires Grown(bounds, s, ops, code, bb, head, unused)
    requires |code| > ENDBB && code[ENDBB].phi.NoPhi?
    ensures bb < |code|
    ensures var code' := Appended(code, bb, [Br(ENDBB)]);
      && Extends(s.code, code') && OnlyAt(s, code', {}) && Built(code', s.others)
      && Emitted(code', bounds, ops, s.at)
      && Holds(code', AfterAll(bounds, ops, s.at).block, AfterAll(bounds, ops, s.at).idx, [Br(ENDBB)])
  {
    hide Built, Extends;
    var code' := Appended(code, bb, [Br(ENDBB)]);
    JumpBuilt(code, s.others + {bb}, bb, Br(ENDBB));
    ExtendsTwice(s.code, code, code');
    EmittedStill(code, code', bounds, ops, s.at);
    AppendedHere(code, bb, [Br(ENDBB)]);
    assert s.others + {bb} - {bb} == s.others;
  }
}
