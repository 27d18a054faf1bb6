/**
 A machine that runs what the compiler of examples/BrainF/BrainF.cpp emitted keeps step with the direct
 interpreter.
 */
module BrainFSimulation {
  import opened BrainFCode
  import opened BrainFEmission
  import opened BrainFLanguage
  import opened Wrappers

  /**
   Emitted code, the heap it runs on, whether the head is checked, the size of the tape, and the register that
   holds the head at the end of the program.
   */
  datatype Machine = Machine(code: Code, heap: Heap, bounds: bool, mem: nat, last: Reg)

  ghost function Steps(m: Machine, c: Config, n: nat): Config {
    Run(m.code, m.heap, c, n)
  }

  predicate OnTape(m: Machine, head: int) {
    0 <= head < m.mem
  }

  /** The return block and, if the head is checked, the error block (BrainF.cpp:119-181). */
  ghost predicate Framed(m: Machine) {
    && |m.code| > ENDBB && m.code[ENDBB] == Block(NoPhi, [Free(ARR), Ret])
    && (m.bounds ==> |m.code| > ABERRORBB && m.code[ABERRORBB] == Block(NoPhi, [Puts, Br(ENDBB)]))
  }

  ghost predicate SameTape(m: Machine, tape: map<int, byte>, mem: map<int, byte>) {
    && (forall a :: a in mem <==> m.heap.base <= a < m.heap.base + m.mem)
    && (forall a :: a in mem ==> mem[a] == Cell(tape, a - m.heap.base))
  }

  ghost predicate SameData(m: Machine, r: State, c: Config) {
    && c.live && c.input == r.input && c.out == r.out
    && SameTape(m, r.tape, c.mem)
    && Get(c.regs, ARR) == m.heap.base
    && (m.bounds ==> Get(c.regs, ARRMAX) == m.heap.base + m.mem && OnTape(m, r.head))
  }

  /** The machine stands before the code of `ops`, which is what the interpreter has still to do. */
  ghost predicate InStep(m: Machine, r: State, c: Config, ops: seq<Op>, h: Reg) {
    && Framed(m) && SameData(m, r, c) && c.status.Running?
    && Get(c.regs, h) == m.heap.base + r.head
    && r.rest == Expand(ops)
    && Emitted(m.code, m.bounds, ops, Pos(c.block, c.idx, h))
    && EndsAt(m, AfterAll(m.bounds, ops, Pos(c.block, c.idx, h)))
  }

  ghost predicate EndsAt(m: Machine, p: Pos) {
    Holds(m.code, p.block, p.idx, [Br(ENDBB)]) && p.head == m.last
  }

  /** The interpreter has nothing left to do and the machine has returned, with the same results and the same head. */
  ghost predicate Finished(m: Machine, r: State, c: Config) {
    && r.rest == [] && c.status.Returned? && c.input == r.input && c.out == r.out && SameTape(m, r.tape, c.mem)
    && Get(c.regs, m.last) == m.heap.base + r.head
  }

  /** The head is outside the tape: the machine has said so and returned, or has touched foreign memory. */
  ghost predicate LeftTape(m: Machine, r: State, c: Config) {
    !OnTape(m, r.head) && if m.bounds then c.status.Returned? && c.out == r.out + [HeadLeftTape] else c.status.Faulted?
  }

  ghost predicate Agrees(m: Machine, r: State, c: Config) {
    (exists ops, h :: InStep(m, r, c, ops, h) && MovesApart(ops)) || Finished(m, r, c)
  }

  // ---------------------------------------------------------------- reading and writing a cell

  function Signed(v: byte): int {
    if v >= 128 then v - 256 else v
  }

  /** The state behind three instructions that set registers `t` and `t + 1`. */
  function Behind(c: Config, t: Reg, v: int, w: int): Config {
    c.(idx := c.idx + 3, regs := c.regs[t := v][t + 1 := w])
  }

  /** What getchar answers. */
  function CharRead(input: seq<byte>): int {
    if input == [] then -1 else input[0]
  }

  lemma CharIsByte(input: seq<byte>)
    ensures CharRead(input) % 256 == ByteRead(input)
  {
  }

  lemma ReadRuns(m: Machine, c: Config, t: Reg, h: Reg, a: int)
    requires c.status.Running? && c.live && t > h && Holds(m.code, c.block, c.idx, ReadCode(t, h)) && a == Get(c.regs, h)
    ensures a in c.mem ==>
      Steps(m, c, 3) == Behind(c, t, CharRead(c.input), ByteRead(c.input)).(mem := c.mem[a := ByteRead(c.input)], input := Tail(c.input))
    ensures a !in c.mem ==> Steps(m, c, 3).status.Faulted?
  {
    hide Run, Holds, Execute, Tail;
    CharIsByte(c.input);
    var v, w := CharRead(c.input), ByteRead(c.input);
    var c1 := Result(c, t, v).(input := Tail(c.input));
    var c2 := Result(c1, t + 1, w);
    CallDone(m.code, m.heap, c, t);
    CastDone(m.code, m.heap, c1, t + 1, t);
    StoreDone(m.code, m.heap, c2, t + 1, h);
    ThreeSteps(m.code, m.heap, c, ReadCode(t, h), c1, c2);
  }

  lemma WriteRuns(m: Machine, c: Config, t: Reg, h: Reg, a: int)
    requires c.status.Running? && c.live && t > h && Holds(m.code, c.block, c.idx, WriteCode(t, h)) && a == Get(c.regs, h)
    ensures a in c.mem ==> Steps(m, c, 3) == Behind(c, t, c.mem[a], Signed(c.mem[a])).(out := c.out + [Char(c.mem[a])])
    ensures a !in c.mem ==> Steps(m, c, 3).status.Faulted?
  {
    hide Run, Holds, Execute, Signed;
    LoadDone(m.code, m.heap, c, t, h);
    if a in c.mem {
      var v := c.mem[a];
      SignOfByte(v);
      var c1 := Result(c, t, v);
      var c2 := Result(c1, t + 1, Signed(v));
      CastDone(m.code, m.heap, c1, t + 1, t);
      CallDone(m.code, m.heap, c2, t + 1);
      ThreeSteps(m.code, m.heap, c, WriteCode(t, h), c1, c2);
    } else {
      ThreeSteps(m.code, m.heap, c, WriteCode(t, h), Fault(c), Fault(c));
    }
  }

  lemma SignOfByte(v: byte)
    ensures v % 256 == v && Signed(v) % 256 == v && Signed(v) == if v >= 128 then v - 256 else v
  {
  }

  lemma ChangeRuns(m: Machine, c: Config, t: Reg, h: Reg, k: int, a: int)
    requires c.status.Running? && c.live && t > h && Holds(m.code, c.block, c.idx, ChangeCode(t, h, k)) && a == Get(c.regs, h)
    ensures a in c.mem ==>
      var v := (c.mem[a] + k % 256) % 256;
      Steps(m, c, 3) == Behind(c, t, c.mem[a], v).(mem := c.mem[a := v])
    ensures a !in c.mem ==> Steps(m, c, 3).status.Faulted?
  {
    hide Run, Holds, Execute;
    LoadDone(m.code, m.heap, c, t, h);
    if a in c.mem {
      var c1 := Result(c, t, c.mem[a]);
      var c2 := Result(c1, t + 1, (c.mem[a] + k % 256) % 256);
      AddDone(m.code, m.heap, c1, t + 1, t, k % 256);
      StoreDone(m.code, m.heap, c2, t + 1, h);
      ThreeSteps(m.code, m.heap, c, ChangeCode(t, h, k), c1, c2);
    } else {
      ThreeSteps(m.code, m.heap, c, ChangeCode(t, h, k), Fault(c), Fault(c));
    }
  }

  lemma SameCellSet(m: Machine, tape: map<int, byte>, mem: map<int, byte>, i: int, v: byte)
    requires SameTape(m, tape, mem) && OnTape(m, i)
    ensures SameTape(m, tape[i := v], mem[m.heap.base + i := v])
  {
  }

  lemma CellAt(m: Machine, tape: map<int, byte>, mem: map<int, byte>, i: int)
    requires SameTape(m, tape, mem)
    ensures m.heap.base + i in mem <==> OnTape(m, i)
    ensures OnTape(m, i) ==> mem[m.heap.base + i] == Cell(tape, i)
  {
  }

  lemma FirstDone(ops: seq<Op>)
    requires ops != []
    ensures Expand(ops) == Commands(ops[0]) + Expand(ops[1..])
  {
  }

  lemma OneCommand(r: State, ops: seq<Op>)
    requires ops != [] && |Commands(ops[0])| == 1 && r.rest == Expand(ops)
    ensures r.rest != [] && r.rest[0] == Commands(ops[0])[0] && r.rest[1..] == Expand(ops[1..])
    ensures Interpret(r, 1) == Obey(r)
  {
    OneInterpreted(r);
  }

  /** An operation that leaves the head where it is. */
  lemma NextInStep(m: Machine, r: State, c: Config, ops: seq<Op>, h: Reg, r': State, c': Config, t: Reg, v: int, w: int)
    requires InStep(m, r, c, ops, h) && ops != [] && t > h
    requires After(m.bounds, ops[0], Pos(c.block, c.idx, h)) == Pos(c.block, c.idx + 3, h)
    requires r'.rest == Expand(ops[1..]) && r'.head == r.head && SameTape(m, r'.tape, c'.mem)
    requires c' == Behind(c, t, v, w).(mem := c'.mem, input := c'.input, out := c'.out)
    requires c'.input == r'.input && c'.out == r'.out
    ensures InStep(m, r', c', ops[1..], h)
  {
    hide Expand, SameTape, Framed, EmittedOp, Holds;
  }

  lemma ReadKeepsStep(m: Machine, r: State, c: Config, ops: seq<Op>, h: Reg)
    requires InStep(m, r, c, ops, h) && ops != [] && ops[0].OpRead?
    ensures InStep(m, Interpret(r, 1), Steps(m, c, 3), ops[1..], h) || LeftTape(m, Interpret(r, 1), Steps(m, c, 3))
  {
    hide Run, Holds, Expand, SameTape, Interpret, Steps, InStep;
    ThisOp(m, r, c, ops, h);
    ReadRuns(m, c, ops[0].t, h, Get(c.regs, h));
    OneCommand(r, ops);
    CellAt(m, r.tape, c.mem, r.head);
    if OnTape(m, r.head) {
      SameCellSet(m, r.tape, c.mem, r.head, ByteRead(r.input));
      NextInStep(m, r, c, ops, h, Interpret(r, 1), Steps(m, c, 3), ops[0].t, CharRead(r.input), ByteRead(r.input));
    }
  }

  lemma ThisOp(m: Machine, r: State, c: Config, ops: seq<Op>, h: Reg)
    requires InStep(m, r, c, ops, h) && ops != []
    ensures EmittedOp(m.code, m.bounds, ops[0], Pos(c.block, c.idx, h)) && SameData(m, r, c) && h > ARRMAX && r.rest == Expand(ops)
    ensures c.status.Running? && Get(c.regs, h) == m.heap.base + r.head
  {
  }

  lemma WriteKeepsStep(m: Machine, r: State, c: Config, ops: seq<Op>, h: Reg)
    requires InStep(m, r, c, ops, h) && ops != [] && ops[0].OpWrite?
    ensures InStep(m, Interpret(r, 1), Steps(m, c, 3), ops[1..], h) || LeftTape(m, Interpret(r, 1), Steps(m, c, 3))
  {
    hide Run, Holds, Expand, SameTape, Interpret, Steps, InStep;
    ThisOp(m, r, c, ops, h);
    WriteRuns(m, c, ops[0].t, h, Get(c.regs, h));
    OneCommand(r, ops);
    CellAt(m, r.tape, c.mem, r.head);
    if OnTape(m, r.head) {
      var v := Cell(r.tape, r.head);
      NextInStep(m, r, c, ops, h, Interpret(r, 1), Steps(m, c, 3), ops[0].t, v, Signed(v));
    }
  }

  // ---------------------------------------------------------------- coalesced runs

  /** The state after `j` commands of a run of `+` and `-`. */
  function Changed(r: State, run: seq<Cmd>, rest: seq<Cmd>, j: nat): State
    requires j <= |run|
  {
    r.(rest := run[j..] + rest,
       tape := if j == 0 then r.tape else r.tape[r.head := (Cell(r.tape, r.head) + Net(run[..j])) % 256])
  }

  lemma ChangeOnce(r: State, run: seq<Cmd>, rest: seq<Cmd>, j: nat)
    requires j < |run| && (run[j] == Inc || run[j] == Dec)
    ensures Obey(Changed(r, run, rest, j)) == Changed(r, run, rest, j + 1)
  {
    var s, was := Changed(r, run, rest, j), Cell(r.tape, r.head);
    assert run[..j + 1][..j] == run[..j];
    assert s.rest[0] == run[j] && s.rest[1..] == run[j + 1..] + rest;
    assert Net(run[..0]) == 0;
    assert Cell(s.tape, s.head) == (was + Net(run[..j])) % 256;
    ModSum(was + Net(run[..j]), Delta(run[j]));
  }

  /** A run of `+` and `-` adds its net value, whatever the order. */
  lemma {:induction false} ChangePrefix(r: State, run: seq<Cmd>, rest: seq<Cmd>, j: nat)
    requires r.rest == run + rest && j <= |run| && forall c :: c in run ==> c == Inc || c == Dec
    ensures Interpret(r, j) == Changed(r, run, rest, j)
  {
    if j == 0 {
      assert run[0..] == run;
    } else {
      ChangePrefix(r, run, rest, j - 1);
      InterpretMore(r, j - 1, 1);
      assert run[j - 1] in run;
      ChangeOnce(r, run, rest, j - 1);
      hide Changed, Obey;
      OneInterpreted(Interpret(r, j - 1));
    }
  }

  lemma OneInterpreted(s: State)
    ensures Interpret(s, 1) == Obey(s)
  {
    assert Interpret(Obey(s), 0) == Obey(s);
  }

  lemma ModSum(a: int, d: int)
    ensures (a % 256 + d) % 256 == (a + d) % 256
  {
    assert a == a / 256 * 256 + a % 256;
    ModMany(a % 256 + d, a / 256);
  }

  lemma ModMany(x: int, q: int)
    ensures (x + q * 256) % 256 == x % 256
  {
    var y := x + q * 256;
    assert y == (x / 256 + q) * 256 + x % 256;
  }

  lemma {:induction false} MovePrefix(r: State, run: seq<Cmd>, rest: seq<Cmd>, j: nat)
    requires r.rest == run + rest && j <= |run| && forall c :: c in run ==> c == Left || c == Right
    ensures Interpret(r, j) == r.(rest := run[j..] + rest, head := r.head + Net(run[..j]))
  {
    if j == 0 {
      assert run[0..] == run;
    } else {
      MovePrefix(r, run, rest, j - 1);
      InterpretMore(r, j - 1, 1);
      var s := Interpret(r, j - 1);
      assert run[..j][..j - 1] == run[..j - 1];
      assert s.rest[0] == run[j - 1] && s.rest[1..] == run[j..] + rest;
      OneInterpreted(s);
      assert run[j - 1] in run;
    }
  }

  lemma ChangeKeepsStep(m: Machine, r: State, c: Config, ops: seq<Op>, h: Reg)
    requires InStep(m, r, c, ops, h) && ops != [] && ops[0].OpChange?
    ensures ops[0].run != []
    ensures InStep(m, Interpret(r, |ops[0].run|), Steps(m, c, 3), ops[1..], h)
         || LeftTape(m, Interpret(r, |ops[0].run|), Steps(m, c, 3))
  {
    hide Run, Holds, Expand, SameTape, Interpret, Steps, InStep;
    var run, k := ops[0].run, Net(ops[0].run);
    ThisOp(m, r, c, ops, h);
    FirstDone(ops);
    ChangeRuns(m, c, ops[0].t, h, k, Get(c.regs, h));
    ChangePrefix(r, run, Expand(ops[1..]), |run|);
    assert run[|run|..] + Expand(ops[1..]) == Expand(ops[1..]) && run[..|run|] == run;
    CellAt(m, r.tape, c.mem, r.head);
    if OnTape(m, r.head) {
      var was, v := Cell(r.tape, r.head), (Cell(r.tape, r.head) + k) % 256;
      ModSum(k, was);
      SameCellSet(m, r.tape, c.mem, r.head, v);
      NextInStep(m, r, c, ops, h, Interpret(r, |run|), Steps(m, c, 3), ops[0].t, was, v);
    }
  }

  /** The instructions that move the head and, if it is checked, compare it with the ends of the tape. */
  lemma MoveRuns(m: Machine, c: Config, to: Reg, t: Reg, next: nat, h: Reg, k: int)
    requires c.status.Running? && t > to > h > ARRMAX && Holds(m.code, c.block, c.idx, [Gep(to, h, k)])
    ensures Steps(m, c, 1) == Result(c, to, Get(c.regs, h) + k)
  {
    OneStep(m.code, m.heap, c, Gep(to, h, k));
  }

  /** The state after the comparisons. */
  function Compared(m: Machine, c: Config, t: Reg, off: int): Config {
    var high, low := Flag(off >= m.mem), Flag(off < 0);
    c.(idx := c.idx + 3, regs := c.regs[t := high][t + 1 := low][t + 2 := Flag(high != 0 || low != 0)])
  }

  lemma CompareRuns(m: Machine, c: Config, to: Reg, t: Reg, next: nat, off: int)
    requires c.status.Running? && t > to > ARRMAX && Holds(m.code, c.block, c.idx, CheckCode(t, to, next))
    requires Get(c.regs, ARR) == m.heap.base && Get(c.regs, ARRMAX) == m.heap.base + m.mem
    requires Get(c.regs, to) == m.heap.base + off
    ensures Steps(m, c, 3) == Compared(m, c, t, off)
  {
    hide Run, Holds, Execute;
    var code := CheckCode(t, to, next);
    var high, low := Flag(off >= m.mem), Flag(off < 0);
    var c1 := Result(c, t, high);
    var c2 := Result(c1, t + 1, low);
    CompareDone(m.code, m.heap, c, t, to, ARRMAX);
    CompareDone(m.code, m.heap, c1, t + 1, to, ARR);
    CompareDone(m.code, m.heap, c2, t + 2, t, t + 1);
    HoldsPart(m.code, c.block, c.idx, code, 3);
    ThreeSteps(m.code, m.heap, c, code[..3], c1, c2);
  }

  lemma BranchTaken(p: Code, e: Heap, c: Config, cond: Reg, t: nat, f: nat, b: nat)
    requires b == (if Get(c.regs, cond) != 0 then t else f) && b < |p| && p[b].phi.NoPhi?
    ensures Execute(p, e, c, CondBr(cond, t, f)) == c.(block := b, idx := 0)
  {
  }

  lemma ComparedFlag(m: Machine, c: Config, t: Reg, off: int, x: Reg)
    ensures Get(Compared(m, c, t, off).regs, t + 2) != 0 <==> !OnTape(m, off)
    ensures x < t ==> Get(Compared(m, c, t, off).regs, x) == Get(c.regs, x)
  {
  }

  lemma CheckRuns(m: Machine, c: Config, to: Reg, t: Reg, next: nat, off: int, b: nat)
    requires c.status.Running? && t > to > ARRMAX && Holds(m.code, c.block, c.idx, CheckCode(t, to, next))
    requires b == if OnTape(m, off) then next else ABERRORBB
    requires b < |m.code| && m.code[b].phi.NoPhi?
    requires Get(c.regs, ARR) == m.heap.base && Get(c.regs, ARRMAX) == m.heap.base + m.mem
    requires Get(c.regs, to) == m.heap.base + off
    ensures Steps(m, c, 4) == Compared(m, c, t, off).(block := b, idx := 0)
  {
    CompareRuns(m, c, to, t, next, off);
    var d := Compared(m, c, t, off);
    HoldsPart(m.code, c.block, c.idx, CheckCode(t, to, next), 3);
    assert CheckCode(t, to, next)[3..] == [CondBr(t + 2, ABERRORBB, next)];
    assert d.status.Running? && d.block == c.block && d.idx == c.idx + 3;
    hide Run, Holds, Step, Execute, OnTape, Compared;
    ComparedFlag(m, c, t, off, 0);
    CheckBranch(m, c, d, t, next, b);
  }

  /** The branch behind the comparisons. */
  lemma CheckBranch(m: Machine, c: Config, d: Config, t: Reg, next: nat, b: nat)
    requires Steps(m, c, 3) == d && d.status.Running? && Holds(m.code, d.block, d.idx, [CondBr(t + 2, ABERRORBB, next)])
    requires b == (if Get(d.regs, t + 2) != 0 then ABERRORBB else next) && b < |m.code| && m.code[b].phi.NoPhi?
    ensures Steps(m, c, 4) == d.(block := b, idx := 0)
  {
    hide Run, Holds, Step, Execute;
    RunMore(m.code, m.heap, c, 3, 1);
    OneStep(m.code, m.heap, d, CondBr(t + 2, ABERRORBB, next));
    BranchTaken(m.code, m.heap, d, t + 2, ABERRORBB, next, b);
  }

  lemma ReturnRuns(m: Machine, c: Config)
    requires c.status.Running? && Framed(m) && c.block == ENDBB && c.idx == 0
    ensures Steps(m, c, 2) == c.(idx := 1, live := false, status := Returned)
  {
    var c1 := c.(idx := 1, live := false);
    assert Step(m.code, m.heap, c) == c1;
    assert Step(m.code, m.heap, c1) == c1.(status := Returned);
    assert Steps(m, c, 2) == Run(m.code, m.heap, c1, 1);
    assert Run(m.code, m.heap, Step(m.code, m.heap, c1), 0) == Step(m.code, m.heap, c1);
  }

  lemma AbortRuns(m: Machine, c: Config)
    requires c.status.Running? && Framed(m) && m.bounds && c.block == ABERRORBB && c.idx == 0
    ensures Steps(m, c, 4).status.Returned? && Steps(m, c, 4).out == c.out + [HeadLeftTape]
  {
    var c1 := c.(idx := 1, out := c.out + [HeadLeftTape]);
    var c2 := c1.(block := ENDBB, idx := 0);
    assert Step(m.code, m.heap, c) == c1 && Step(m.code, m.heap, c1) == c2;
    assert Steps(m, c, 2) == c2 by {
      assert Run(m.code, m.heap, c2, 0) == c2;
      assert Run(m.code, m.heap, c1, 1) == c2;
    }
    RunMore(m.code, m.heap, c, 2, 2);
    ReturnRuns(m, c2);
  }

  lemma MoveMeans(r: State, ops: seq<Op>)
    requires ops != [] && ops[0].OpMove? && r.rest == Expand(ops)
    requires forall c :: c in ops[0].run ==> c == Left || c == Right
    ensures Interpret(r, |ops[0].run|) == r.(rest := Expand(ops[1..]), head := r.head + Net(ops[0].run))
  {
    var run := ops[0].run;
    FirstDone(ops);
    MovePrefix(r, run, Expand(ops[1..]), |run|);
    assert run[|run|..] + Expand(ops[1..]) == Expand(ops[1..]) && run[..|run|] == run;
  }

  /** The same data, the head elsewhere. */
  lemma MovedInStep(m: Machine, r: State, c: Config, ops: seq<Op>, h: Reg, r': State, c': Config)
    requires InStep(m, r, c, ops, h) && ops != [] && ops[0].OpMove?
    requires r' == r.(rest := Expand(ops[1..]), head := r'.head) && (m.bounds ==> OnTape(m, r'.head))
    requires var q := After(m.bounds, ops[0], Pos(c.block, c.idx, h)); c' == c.(block := q.block, idx := q.idx, regs := c'.regs)
    requires Get(c'.regs, ops[0].to) == m.heap.base + r'.head && forall x: Reg :: x <= ARRMAX ==> Get(c'.regs, x) == Get(c.regs, x)
    ensures InStep(m, r', c', ops[1..], ops[0].to)
  {
    hide Expand, SameTape, Framed, EmittedOp, Holds;
  }

  lemma MoveKeepsStep(m: Machine, r: State, c: Config, ops: seq<Op>, h: Reg) returns (b: nat)
    requires InStep(m, r, c, ops, h) && ops != [] && ops[0].OpMove?
    ensures ops[0].run != [] && b >= 1
    ensures InStep(m, Interpret(r, |ops[0].run|), Steps(m, c, b), ops[1..], ops[0].to)
         || LeftTape(m, Interpret(r, |ops[0].run|), Steps(m, c, b))
  {
    hide Run, Holds, Expand, SameTape, Interpret, Steps, InStep, Compared;
    var op, k := ops[0], Net(ops[0].run);
    ThisOp(m, r, c, ops, h);
    MoveMeans(r, ops);
    MoveRuns(m, c, op.to, op.t, op.next, h, k);
    var c1, head := Result(c, op.to, Get(c.regs, h) + k), r.head + k;
    if !m.bounds {
      MovedInStep(m, r, c, ops, h, r.(rest := Expand(ops[1..]), head := head), c1);
      b := 1;
    } else {
      FrameOf(m, r, c, ops, h);
      var to := if OnTape(m, head) then op.next else ABERRORBB;
      BlocksThere(m, op.next);
      CheckRuns(m, c1, op.to, op.t, op.next, head, to);
      var c2 := Compared(m, c1, op.t, head).(block := to, idx := 0);
      StepsMore(m, c, 1, 4);
      ComparedFlag(m, c1, op.t, head, op.to);
      ComparedFlag(m, c1, op.t, head, ARR);
      ComparedFlag(m, c1, op.t, head, ARRMAX);
      ComparedRest(m, c1, op.t, head);
      if OnTape(m, head) {
        MovedInStep(m, r, c, ops, h, r.(rest := Expand(ops[1..]), head := head), c2);
        b := 5;
      } else {
        AbortRuns(m, c2);
        StepsMore(m, c, 5, 4);
        b := 9;
      }
    }
  }

  lemma FrameOf(m: Machine, r: State, c: Config, ops: seq<Op>, h: Reg)
    requires InStep(m, r, c, ops, h)
    ensures Framed(m)
  {
  }

  lemma BlocksThere(m: Machine, next: nat)
    requires Framed(m) && m.bounds
    ensures ABERRORBB < |m.code| && m.code[ABERRORBB].phi.NoPhi?
  {
  }

  lemma ComparedRest(m: Machine, c: Config, t: Reg, off: int)
    ensures Compared(m, c, t, off) == c.(idx := c.idx + 3, regs := Compared(m, c, t, off).regs)
  {
  }

  lemma StepsMore(m: Machine, c: Config, a: nat, b: nat)
    ensures Steps(m, c, a + b) == Steps(m, Steps(m, c, a), b)
  {
    RunMore(m.code, m.heap, c, a, b);
  }

  // ---------------------------------------------------------------- loops and the end

  lemma BranchRuns(m: Machine, c: Config, b: nat, dst: Reg, h: Reg)
    requires c.status.Running? && Joins(m.code, Pos(c.block, c.idx, h), b, dst)
    ensures Steps(m, c, 1) == c.(block := b, idx := 0, regs := c.regs[dst := Get(c.regs, h)])
  {
    OneStep(m.code, m.heap, c, Br(b));
  }

  /** The state behind the test of a loop, for cell value `v`. */
  function Tested(c: Config, head: Reg, t: Reg, exit: nat, exitHead: Reg, start: nat, v: byte): Config {
    var regs := c.regs[t := v][t + 1 := Flag(v == 0)];
    if v == 0 then c.(block := exit, idx := 0, regs := regs[exitHead := Get(c.regs, head)])
    else c.(block := start, idx := 0, regs := regs)
  }

  lemma TestRuns(m: Machine, c: Config, head: Reg, t: Reg, exit: nat, exitHead: Reg, start: nat, a: int)
    requires c.status.Running? && c.live && t > head && a == Get(c.regs, head) && c.idx == 0
    requires LoopClosed(m.code, c.block, head, t, exit, exitHead, start)
    ensures a in c.mem ==> Steps(m, c, 3) == Tested(c, head, t, exit, exitHead, start, c.mem[a])
    ensures a !in c.mem ==> Steps(m, c, 3).status.Faulted?
  {
    var c1 := Execute(m.code, m.heap, c, Load(t, head));
    var c2 := if c1.status.Running? then Execute(m.code, m.heap, c1, IsZero(t + 1, t)) else c1;
    hide Run, Holds, Tail, Allocated, Filled, InMemory, Incoming;
    ThreeSteps(m.code, m.heap, c, TestCode(t, head, exit, start), c1, c2);
  }

  lemma LoopMeans(r: State, ops: seq<Op>)
    requires ops != [] && ops[0].OpLoop? && r.rest == Expand(ops)
    ensures Interpret(r, 1) == r.(rest := if Cell(r.tape, r.head) == 0 then Expand(ops[1..]) else Expand(ops[0].body) + Expand(ops))
  {
    OneCommand(r, ops);
  }

  lemma LoopKeepsStep(m: Machine, r: State, c: Config, ops: seq<Op>, h: Reg) returns (ops': seq<Op>, h': Reg, b: nat)
    requires InStep(m, r, c, ops, h) && ops != [] && ops[0].OpLoop?
    ensures b >= 1 && (ops' == ops || ops' == ops[1..] || ops' == ops[0].body + ops)
    ensures InStep(m, Interpret(r, 1), Steps(m, c, b), ops', h') || LeftTape(m, Interpret(r, 1), Steps(m, c, b))
  {
    hide Run, Expand, SameTape, Interpret, Steps, InStep, LoopClosed, Joins;
    var op := ops[0];
    ThisOp(m, r, c, ops, h);
    LoopMeans(r, ops);
    BranchRuns(m, c, op.test, op.head, h);
    var c1 := c.(block := op.test, idx := 0, regs := c.regs[op.head := Get(c.regs, h)]);
    TestRuns(m, c1, op.head, op.t, op.exit, op.exitHead, op.start, m.heap.base + r.head);
    StepsMore(m, c, 1, 3);
    CellAt(m, r.tape, c.mem, r.head);
    b := 4;
    ops', h' := ops, h;
    if OnTape(m, r.head) {
      var v := Cell(r.tape, r.head);
      var c2 := Tested(c1, op.head, op.t, op.exit, op.exitHead, op.start, v);
      assert Steps(m, c, 4) == c2;
      if v == 0 {
        LoopLeft(m, r, c, ops, h, Interpret(r, 1), c2);
        ops', h' := ops[1..], op.exitHead;
      } else {
        LoopAgain(m, r, c, ops, h, Interpret(r, 1), c2);
        ops', h' := op.body + ops, op.head;
      }
    }
  }

  lemma LoopLeft(m: Machine, r: State, c: Config, ops: seq<Op>, h: Reg, r': State, c': Config)
    requires InStep(m, r, c, ops, h) && ops != [] && ops[0].OpLoop?
    requires r' == r.(rest := Expand(ops[1..]))
    requires c' == c.(block := ops[0].exit, idx := 0, regs := c'.regs)
    requires Get(c'.regs, ops[0].exitHead) == m.heap.base + r.head && forall x: Reg :: x <= ARRMAX ==> Get(c'.regs, x) == Get(c.regs, x)
    ensures InStep(m, r', c', ops[1..], ops[0].exitHead)
  {
    hide Expand, SameTape, Framed, EmittedOp, Holds;
  }

  lemma LoopAgain(m: Machine, r: State, c: Config, ops: seq<Op>, h: Reg, r': State, c': Config)
    requires InStep(m, r, c, ops, h) && ops != [] && ops[0].OpLoop?
    requires r' == r.(rest := Expand(ops[0].body) + Expand(ops))
    requires c' == c.(block := ops[0].start, idx := 0, regs := c'.regs)
    requires Get(c'.regs, ops[0].head) == m.heap.base + r.head && forall x: Reg :: x <= ARRMAX ==> Get(c'.regs, x) == Get(c.regs, x)
    ensures InStep(m, r', c', ops[0].body + ops, ops[0].head)
  {
    LoopUnrolled(m.code, m.bounds, ops, Pos(c.block, c.idx, h));
    hide Expand, SameTape, Framed, EmittedOp, Holds, Emitted, AfterAll;
  }

  lemma EndKeepsStep(m: Machine, r: State, c: Config, h: Reg)
    requires InStep(m, r, c, [], h)
    ensures Finished(m, r, Steps(m, c, 3))
  {
    hide Run, SameTape;
    OneStep(m.code, m.heap, c, Br(ENDBB));
    StepsMore(m, c, 1, 2);
    ReturnRuns(m, c.(block := ENDBB, idx := 0));
  }
}
