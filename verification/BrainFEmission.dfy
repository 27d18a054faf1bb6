/**
 What the compiler of examples/BrainF/BrainF.cpp emits for each command, and the proof that a machine
 running it keeps step with the direct interpreter.
 */
module BrainFEmission {
  import opened BrainFCode
  import opened BrainFLanguage
  import opened Wrappers

  // The fixed values of a compilation (BrainF.h:70-79): the tape, the end of the tape, and two blocks.
  const ARR: Reg := 0
  const ARRMAX: Reg := 1
  const ENDBB: nat := 1
  const ABERRORBB: nat := 2

  /**
   A stretch of the program as the compiler sees it, with the registers and blocks it has chosen: runs
   of `+` and `-`, and runs of `<` and `>`, are one operation each.
   */
  datatype Op =
    | OpRead(t: Reg)
    | OpWrite(t: Reg)
    | OpChange(run: seq<Cmd>, t: Reg)
    | OpMove(run: seq<Cmd>, to: Reg, t: Reg, next: nat)
    | OpLoop(body: seq<Op>, start: nat, test: nat, head: Reg, t: Reg, exit: nat, exitHead: Reg)

  /** The commands an operation stands for. */
  function Commands(op: Op): seq<Cmd>
    decreases op, 0
  {
    match op
    case OpRead(_) => [Read]
    case OpWrite(_) => [Write]
    case OpChange(run, _) => run
    case OpMove(run, _, _, _) => run
    case OpLoop(body, _, _, _, _, _, _) => [Loop(Expand(body))]
  }

  function Expand(ops: seq<Op>): seq<Cmd> {
    if ops == [] then [] else Commands(ops[0]) + Expand(ops[1..])
  }

  lemma {:induction false} ExpandBoth(a: seq<Op>, b: seq<Op>)
    ensures Expand(a + b) == Expand(a) + Expand(b)
  {
    if a == [] {
      assert a + b == b;
    } else {
      hide Commands;
      ExpandBoth(a[1..], b);
      assert (a + b)[1..] == a[1..] + b && (a + b)[0] == a[0];
      assert Expand(a + b) == Commands(a[0]) + (Expand(a[1..]) + Expand(b));
    }
  }

  /** Two runs of moves stand side by side. */
  predicate MovesMeet(ops: seq<Op>, i: nat) {
    i + 1 < |ops| && ops[i].OpMove? && ops[i + 1].OpMove?
  }

  /** Runs of moves are as long as they can be: no two follow one another, in loops either. */
  ghost predicate MovesApart(ops: seq<Op>)
    decreases ops
  {
    (forall i: nat :: !MovesMeet(ops, i)) && forall op :: op in ops && op.OpLoop? ==> MovesApart(op.body)
  }

  lemma ApartTail(ops: seq<Op>)
    requires MovesApart(ops) && ops != []
    ensures MovesApart(ops[1..]) && (ops[0].OpMove? && |ops| > 1 ==> !ops[1].OpMove?)
  {
    assert !MovesMeet(ops, 0);
    forall i: nat ensures !MovesMeet(ops[1..], i) {
      assert !MovesMeet(ops, i + 1);
    }
  }

  lemma ApartLoop(ops: seq<Op>)
    requires MovesApart(ops) && ops != [] && ops[0].OpLoop?
    ensures MovesApart(ops[0].body + ops)
  {
    var body := ops[0].body;
    assert MovesApart(body);
    forall i: nat ensures !MovesMeet(body + ops, i) {
      assert !MovesMeet(body, i) && (i >= |body| ==> !MovesMeet(ops, i - |body|));
    }
  }

  lemma ApartMore(ops: seq<Op>, op: Op)
    requires MovesApart(ops) && (op.OpLoop? ==> MovesApart(op.body))
    requires op.OpMove? && ops != [] ==> !ops[|ops| - 1].OpMove?
    ensures MovesApart(ops + [op])
  {
    forall i: nat ensures !MovesMeet(ops + [op], i) {
      assert !MovesMeet(ops, i);
    }
  }

  function Delta(c: Cmd): int {
    match c
    case Inc => 1
    case Dec => -1
    case Right => 1
    case Left => -1
    case _ => 0
  }

  /** The value of a coalesced run. */
  function Net(run: seq<Cmd>): int {
    if run == [] then 0 else Net(run[..|run| - 1]) + Delta(run[|run| - 1])
  }

  // ---------------------------------------------------------------- emitted code

  /** Where the next instruction goes, and the register that holds the head there. */
  datatype Pos = Pos(block: nat, idx: nat, head: Reg)

  function After(bounds: bool, op: Op, p: Pos): Pos {
    match op
    case OpRead(_) => Pos(p.block, p.idx + 3, p.head)
    case OpWrite(_) => Pos(p.block, p.idx + 3, p.head)
    case OpChange(_, _) => Pos(p.block, p.idx + 3, p.head)
    case OpMove(_, to, _, next) => if bounds then Pos(next, 0, to) else Pos(p.block, p.idx + 1, to)
    case OpLoop(_, _, _, _, _, exit, exitHead) => Pos(exit, 0, exitHead)
  }

  function AfterAll(bounds: bool, ops: seq<Op>, p: Pos): Pos {
    if ops == [] then p else AfterAll(bounds, ops[1..], After(bounds, ops[0], p))
  }

  function ReadCode(t: Reg, h: Reg): seq<Instr> {
    [GetChar(t), Trunc(t + 1, t), Store(t + 1, h)]
  }

  function WriteCode(t: Reg, h: Reg): seq<Instr> {
    [Load(t, h), SExt(t + 1, t), PutChar(t + 1)]
  }

  function ChangeCode(t: Reg, h: Reg, k: int): seq<Instr> {
    [Load(t, h), Add(t + 1, t, k % 256), Store(t + 1, h)]
  }

  function CheckCode(t: Reg, to: Reg, next: nat): seq<Instr> {
    [UGe(t, to, ARRMAX), ULt(t + 1, to, ARR), Or(t + 2, t, t + 1), CondBr(t + 2, ABERRORBB, next)]
  }

  function TestCode(t: Reg, head: Reg, exit: nat, start: nat): seq<Instr> {
    [Load(t, head), IsZero(t + 1, t), CondBr(t + 1, exit, start)]
  }

  /** The head reaches block `b` from `p`, as register `dst`, by a branch that stands at `p`. */
  ghost predicate Joins(code: Code, p: Pos, b: nat, dst: Reg) {
    && Holds(code, p.block, p.idx, [Br(b)])
    && b < |code| && code[b].phi.Phi? && code[b].phi.dst == dst
    && Incoming(code[b].phi.incoming, p.block) == Some(p.head)
  }

  ghost predicate Emitted(code: Code, bounds: bool, ops: seq<Op>, p: Pos)
    decreases ops
  {
    p.head > ARRMAX
    && (ops == [] || (EmittedOp(code, bounds, ops[0], p) && Emitted(code, bounds, ops[1..], After(bounds, ops[0], p))))
  }

  ghost predicate EmittedOp(code: Code, bounds: bool, op: Op, p: Pos)
    decreases op, 0
  {
    match op
    case OpRead(t) => t > p.head && Holds(code, p.block, p.idx, ReadCode(t, p.head))
    case OpWrite(t) => t > p.head && Holds(code, p.block, p.idx, WriteCode(t, p.head))
    case OpChange(run, t) =>
      && t > p.head && run != [] && (forall c :: c in run ==> c == Inc || c == Dec)
      && Holds(code, p.block, p.idx, ChangeCode(t, p.head, Net(run)))
    case OpMove(run, to, t, next) =>
      && t > to > p.head && run != [] && (forall c :: c in run ==> c == Left || c == Right)
      && Holds(code, p.block, p.idx, [Gep(to, p.head, Net(run))])
      && (bounds ==> Holds(code, p.block, p.idx + 1, CheckCode(t, to, next)) && next < |code| && code[next].phi.NoPhi?)
    case OpLoop(body, start, test, head, t, exit, exitHead) =>
      && exitHead > t > head && head > ARRMAX
      && Joins(code, p, test, head)
      && LoopClosed(code, test, head, t, exit, exitHead, start)
      && Emitted(code, bounds, body, Pos(start, 0, head))
      && Joins(code, AfterAll(bounds, body, Pos(start, 0, head)), test, head)
  }

  /** The test of a loop: to its exit when the cell is zero, to its body otherwise. */
  ghost predicate LoopClosed(code: Code, test: nat, head: Reg, t: Reg, exit: nat, exitHead: Reg, start: nat) {
    && Holds(code, test, 0, TestCode(t, head, exit, start))
    && start < |code| && code[start].phi.NoPhi?
    && exit < |code| && code[exit].phi.Phi? && code[exit].phi.dst == exitHead
    && Incoming(code[exit].phi.incoming, test) == Some(head)
  }

  lemma {:induction false} EmittedBoth(code: Code, bounds: bool, a: seq<Op>, b: seq<Op>, p: Pos)
    requires Emitted(code, bounds, a, p) && Emitted(code, bounds, b, AfterAll(bounds, a, p))
    ensures Emitted(code, bounds, a + b, p)
    ensures AfterAll(bounds, a + b, p) == AfterAll(bounds, b, AfterAll(bounds, a, p))
    decreases |a|
  {
    hide EmittedOp;
    if a == [] {
      assert a + b == b;
    } else {
      assert (a + b)[0] == a[0] && (a + b)[1..] == a[1..] + b;
      EmittedBoth(code, bounds, a[1..], b, After(bounds, a[0], p));
    }
  }

  /** Going back to the test of a loop leaves the loop and all that follows it to be done. */
  lemma LoopUnrolled(code: Code, bounds: bool, ops: seq<Op>, p: Pos)
    requires Emitted(code, bounds, ops, p) && ops != [] && ops[0].OpLoop?
    ensures Emitted(code, bounds, ops[0].body + ops, Pos(ops[0].start, 0, ops[0].head))
    ensures AfterAll(bounds, ops[0].body + ops, Pos(ops[0].start, 0, ops[0].head)) == AfterAll(bounds, ops, p)
    ensures Expand(ops[0].body + ops) == Expand(ops[0].body) + Expand(ops)
  {
    var start := Pos(ops[0].start, 0, ops[0].head);
    var end := AfterAll(bounds, ops[0].body, start);
    EmittedEndHead(code, bounds, ops[0].body, start);
    assert EmittedOp(code, bounds, ops[0], end);
    assert After(bounds, ops[0], end) == After(bounds, ops[0], p);
    EmittedBoth(code, bounds, ops[0].body, ops, start);
    ExpandBoth(ops[0].body, ops);
  }

  lemma {:induction false} EmittedEndHead(code: Code, bounds: bool, ops: seq<Op>, p: Pos)
    requires Emitted(code, bounds, ops, p)
    ensures AfterAll(bounds, ops, p).head > ARRMAX
    decreases |ops|
  {
    if ops != [] {
      EmittedEndHead(code, bounds, ops[1..], After(bounds, ops[0], p));
    }
  }

  // ---------------------------------------------------------------- code that is still growing

  /** `b` is `a` with more blocks, more instructions at the ends of blocks, and more incoming values. */
  ghost predicate Extends(a: Code, b: Code) {
    |a| <= |b| && forall k :: 0 <= k < |a| ==> BlockExtends(a[k], b[k])
  }

  ghost predicate BlockExtends(a: Block, b: Block) {
    && a.code <= b.code
    && (a.phi.NoPhi? ==> b.phi.NoPhi?)
    && (a.phi.Phi? ==> b.phi.Phi? && a.phi.dst == b.phi.dst && a.phi.incoming <= b.phi.incoming)
  }

  lemma ExtendsTwice(a: Code, b: Code, c: Code)
    requires Extends(a, b) && Extends(b, c)
    ensures Extends(a, c)
  {
    forall k | 0 <= k < |a| ensures BlockExtends(a[k], c[k]) {
      assert BlockExtends(a[k], b[k]) && BlockExtends(b[k], c[k]);
    }
  }

  lemma HoldsStill(a: Code, b: Code, k: nat, i: nat, ins: seq<Instr>)
    requires Extends(a, b) && Holds(a, k, i, ins)
    ensures Holds(b, k, i, ins)
  {
    assert BlockExtends(a[k], b[k]);
    assert b[k].code[i..i + |ins|] == a[k].code[i..i + |ins|];
  }

  lemma JoinsStill(a: Code, b: Code, p: Pos, k: nat, dst: Reg)
    requires Extends(a, b) && Joins(a, p, k, dst)
    ensures Joins(b, p, k, dst)
  {
    HoldsStill(a, b, p.block, p.idx, [Br(k)]);
    assert BlockExtends(a[k], b[k]);
    IncomingKept(a[k].phi.incoming, b[k].phi.incoming, p.block);
  }

  lemma LoopStillClosed(a: Code, b: Code, test: nat, head: Reg, t: Reg, exit: nat, exitHead: Reg, start: nat)
    requires Extends(a, b) && LoopClosed(a, test, head, t, exit, exitHead, start)
    ensures LoopClosed(b, test, head, t, exit, exitHead, start)
  {
    HoldsStill(a, b, test, 0, TestCode(t, head, exit, start));
    assert BlockExtends(a[start], b[start]) && BlockExtends(a[exit], b[exit]);
    IncomingKept(a[exit].phi.incoming, b[exit].phi.incoming, test);
  }

  lemma {:induction false} EmittedOpStill(a: Code, b: Code, bounds: bool, op: Op, p: Pos)
    requires Extends(a, b) && EmittedOp(a, bounds, op, p)
    ensures EmittedOp(b, bounds, op, p)
    decreases op, 0
  {
    hide Holds, Extends, Joins, LoopClosed;
    match op
    case OpRead(t) => HoldsStill(a, b, p.block, p.idx, ReadCode(t, p.head));
    case OpWrite(t) => HoldsStill(a, b, p.block, p.idx, WriteCode(t, p.head));
    case OpChange(run, t) => HoldsStill(a, b, p.block, p.idx, ChangeCode(t, p.head, Net(run)));
    case OpMove(run, to, t, next) =>
      HoldsStill(a, b, p.block, p.idx, [Gep(to, p.head, Net(run))]);
      if bounds {
        HoldsStill(a, b, p.block, p.idx + 1, CheckCode(t, to, next));
        NoPhiStill(a, b, next);
      }
    case OpLoop(body, start, test, head, t, exit, exitHead) =>
      JoinsStill(a, b, p, test, head);
      JoinsStill(a, b, AfterAll(bounds, body, Pos(start, 0, head)), test, head);
      LoopStillClosed(a, b, test, head, t, exit, exitHead, start);
      EmittedStill(a, b, bounds, body, Pos(start, 0, head));
  }

  lemma NoPhiStill(a: Code, b: Code, k: nat)
    requires Extends(a, b) && k < |a| && a[k].phi.NoPhi?
    ensures k < |b| && b[k].phi.NoPhi?
  {
    assert BlockExtends(a[k], b[k]);
  }

  /** What has been emitted stays emitted. */
  lemma {:induction false} EmittedStill(a: Code, b: Code, bounds: bool, ops: seq<Op>, p: Pos)
    requires Extends(a, b) && Emitted(a, bounds, ops, p)
    ensures Emitted(b, bounds, ops, p)
    decreases ops
  {
    hide Extends, EmittedOp;
    if ops != [] {
      EmittedOpStill(a, b, bounds, ops[0], p);
      EmittedStill(a, b, bounds, ops[1..], After(bounds, ops[0], p));
    }
  }
}
