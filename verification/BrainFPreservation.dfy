/**
 Whole runs of compiled BrainF programs: what the emitted code does is what the direct interpreter does
 with the source text.
 */
module BrainFPreservation {
  import opened BrainFCode
  import opened BrainFEmission
  import opened BrainFLanguage
  import opened BrainFSimulation

  const FIRSTHEAD: Reg := 2

  /** The code in front of the program (BrainF.cpp:80-115). */
  function HeaderCode(bounds: bool, mem: nat): seq<Instr> {
    [Malloc(ARR, mem), Memset(ARR, 0, mem)]
    + (if bounds then [Gep(ARRMAX, ARR, mem)] else [])
    + [Gep(FIRSTHEAD, ARR, mem / 2)]
  }

  function HeaderEnd(bounds: bool): Pos {
    Pos(0, if bounds then 4 else 3, FIRSTHEAD)
  }

  /** The machine holds the compiled form of `ops`, in which runs of moves are as long as they can be. */
  ghost predicate Compiled(m: Machine, ops: seq<Op>) {
    && Framed(m) && MovesApart(ops)
    && Holds(m.code, 0, 0, HeaderCode(m.bounds, m.mem))
    && Emitted(m.code, m.bounds, ops, HeaderEnd(m.bounds))
    && EndsAt(m, AfterAll(m.bounds, ops, HeaderEnd(m.bounds)))
  }

  /** The source program, about to be interpreted in the middle of an empty tape. */
  function Source(m: Machine, cs: seq<Cmd>, input: seq<byte>): State {
    State(cs, m.mem / 2, map[], input, [])
  }

  function Boot(input: seq<byte>): Config {
    Config(0, 0, map[], map[], false, input, [], Running)
  }

  lemma HeaderRuns(m: Machine, ops: seq<Op>, input: seq<byte>)
    requires Compiled(m, ops)
    ensures Steps(m, Boot(input), 3 + Flag(m.bounds)) == Booted(m, input)
  {
    var e, base, mem := m.heap, m.heap.base, m.mem;
    var code := HeaderCode(m.bounds, mem);
    var c := Boot(input);
    var c1 := c.(idx := 1, regs := map[ARR := base], mem := Allocated(e, mem), live := true);
    var c2 := c1.(idx := 2, mem := Filled(c1.mem, base, mem, 0));
    assert Execute(m.code, e, c, code[0]) == c1;
    assert Execute(m.code, e, c1, code[1]) == c2;
    if m.bounds {
      var c3 := Result(c2, ARRMAX, base + mem);
      HoldsPart(m.code, 0, 0, code, 3);
      hide Run, Holds;
      ThreeSteps(m.code, e, c, code[..3], c1, c2);
      assert code[3..] == [Gep(FIRSTHEAD, ARR, mem / 2)];
      OneStep(m.code, e, c3, code[3]);
      StepsMore(m, c, 3, 1);
    } else {
      hide Run, Holds;
      ThreeSteps(m.code, e, c, code, c1, c2);
    }
  }

  /** The state behind the header. */
  function Booted(m: Machine, input: seq<byte>): Config {
    var base := m.heap.base;
    var regs := if m.bounds then map[ARR := base][ARRMAX := base + m.mem] else map[ARR := base];
    Config(0, HeaderEnd(m.bounds).idx, regs[FIRSTHEAD := base + m.mem / 2],
           Filled(Allocated(m.heap, m.mem), base, m.mem, 0), true, input, [], Running)
  }

  lemma BootedInStep(m: Machine, ops: seq<Op>, input: seq<byte>)
    requires Compiled(m, ops) && (m.bounds ==> m.mem > 0)
    ensures InStep(m, Source(m, Expand(ops), input), Booted(m, input), ops, FIRSTHEAD)
  {
    hide Framed, Holds, Emitted;
    assert SameTape(m, map[], Booted(m, input).mem);
  }

  // ---------------------------------------------------------------- keeping step for ever

  /** No run of moves is under way: what comes next, if anything, is no move. */
  predicate RunOver(r: State) {
    r.rest == [] || (r.rest[0] != Left && r.rest[0] != Right)
  }

  /** Whenever a run of moves is over the head is on the tape; in between it may leave the tape and come back. */
  ghost predicate StaysOnTape(m: Machine, r: State) {
    forall a: nat :: RunOver(Interpret(r, a)) ==> OnTape(m, Interpret(r, a).head)
  }

  lemma NotStaying(m: Machine, r: State, a: nat)
    requires RunOver(Interpret(r, a)) && !OnTape(m, Interpret(r, a).head)
    ensures !StaysOnTape(m, r)
  {
  }

  lemma NotStayingLater(m: Machine, r: State, a: nat)
    requires !StaysOnTape(m, Interpret(r, a))
    ensures !StaysOnTape(m, r)
  {
    var k: nat :| RunOver(Interpret(Interpret(r, a), k)) && !OnTape(m, Interpret(Interpret(r, a), k).head);
    InterpretMore(r, a, k);
    NotStaying(m, r, a + k);
  }

  /** What is emitted for other operations begins with no move. */
  lemma NoMoveNext(code: Code, bounds: bool, ops: seq<Op>, p: Pos, r: State)
    requires Emitted(code, bounds, ops, p) && (ops == [] || !ops[0].OpMove?) && r.rest == Expand(ops)
    ensures RunOver(r)
  {
    if ops != [] {
      FirstDone(ops);
      assert EmittedOp(code, bounds, ops[0], p);
      assert Commands(ops[0])[0] in Commands(ops[0]) && r.rest[0] == Commands(ops[0])[0];
    }
  }

  /** Operations other than moves leave the head where it is. */
  lemma HeadStays(m: Machine, r: State, c: Config, ops: seq<Op>, h: Reg)
    requires InStep(m, r, c, ops, h) && ops != [] && !ops[0].OpMove?
    ensures RunOver(r) && Interpret(r, |Commands(ops[0])|).head == r.head
  {
    NoMoveNext(m.code, m.bounds, ops, Pos(c.block, c.idx, h), r);
    assert EmittedOp(m.code, m.bounds, ops[0], Pos(c.block, c.idx, h));
    hide InStep, Emitted;
    if ops[0].OpChange? {
      FirstDone(ops);
      ChangePrefix(r, ops[0].run, Expand(ops[1..]), |ops[0].run|);
    } else {
      OneCommand(r, ops);
    }
  }

  /** If the head is off the tape after an operation, then at the end of a run of moves. */
  lemma LeavesAtEnd(m: Machine, r: State, c: Config, ops: seq<Op>, h: Reg)
    requires InStep(m, r, c, ops, h) && ops != [] && MovesApart(ops)
    requires !OnTape(m, Interpret(r, |Commands(ops[0])|).head)
    ensures !StaysOnTape(m, r)
  {
    hide Framed, SameData, StaysOnTape, Holds;
    if ops[0].OpMove? {
      assert EmittedOp(m.code, m.bounds, ops[0], Pos(c.block, c.idx, h));
      MoveMeans(r, ops);
      ApartTail(ops);
      NoMoveNext(m.code, m.bounds, ops[1..], After(m.bounds, ops[0], Pos(c.block, c.idx, h)), Interpret(r, |ops[0].run|));
      NotStaying(m, r, |ops[0].run|);
    } else {
      HeadStays(m, r, c, ops, h);
      assert Interpret(r, 0) == r;
      NotStaying(m, r, 0);
    }
  }

  /** From a state in step, both go on: to a state in step, to the end, or off the tape at the end of a run of moves. */
  lemma GoOn(m: Machine, r: State, c: Config, ops: seq<Op>, h: Reg) returns (a: nat, b: nat)
    requires InStep(m, r, c, ops, h) && MovesApart(ops)
    ensures a > 0 && b > 0
    ensures Agrees(m, Interpret(r, a), Steps(m, c, b)) || (LeftTape(m, Interpret(r, a), Steps(m, c, b)) && !StaysOnTape(m, r))
  {
    hide InStep, LeftTape, Interpret, Steps, Finished, Expand, MovesApart, StaysOnTape;
    if ops == [] {
      EndKeepsStep(m, r, c, h);
      NothingToDo(m, r, c, h);
      StaysHalted(r, 1);
      a, b := 1, 3;
    } else {
      ApartTail(ops);
      var ops' := ops[1..];
      match ops[0] {
        case OpRead(_) =>
          ReadKeepsStep(m, r, c, ops, h);
          a, b := 1, 3;
        case OpWrite(_) =>
          WriteKeepsStep(m, r, c, ops, h);
          a, b := 1, 3;
        case OpChange(run, _) =>
          ChangeKeepsStep(m, r, c, ops, h);
          a, b := |run|, 3;
        case OpMove(run, _, _, _) =>
          b := MoveKeepsStep(m, r, c, ops, h);
          a := |run|;
        case OpLoop(_, _, _, _, _, _, _) =>
          ApartLoop(ops);
          var h';
          ops', h', b := LoopKeepsStep(m, r, c, ops, h);
          a := 1;
      }
      if LeftTape(m, Interpret(r, a), Steps(m, c, b)) {
        LeftOff(m, Interpret(r, a), Steps(m, c, b));
        LeavesAtEnd(m, r, c, ops, h);
      }
    }
  }

  lemma LeftOff(m: Machine, r: State, c: Config)
    requires LeftTape(m, r, c)
    ensures !OnTape(m, r.head)
  {
  }

  lemma NothingToDo(m: Machine, r: State, c: Config, h: Reg)
    requires InStep(m, r, c, [], h)
    ensures r.rest == []
  {
  }

  lemma {:induction false} KeepStep(m: Machine, r: State, c: Config, n: nat) returns (a: nat, b: nat)
    requires Agrees(m, r, c)
    ensures (a >= n && b >= n && Agrees(m, Interpret(r, a), Steps(m, c, b)))
         || (LeftTape(m, Interpret(r, a), Steps(m, c, b)) && !StaysOnTape(m, r))
    decreases n
  {
    hide InStep, LeftTape, Finished, MovesApart, StaysOnTape;
    if n == 0 {
      a, b := 0, 0;
    } else if Finished(m, r, c) {
      FinishedStays(m, r, c, n);
      a, b := n, n;
    } else {
      var ops, h :| InStep(m, r, c, ops, h) && MovesApart(ops);
      var a1, b1 := GoOn(m, r, c, ops, h);
      a, b := a1, b1;
      if Agrees(m, Interpret(r, a1), Steps(m, c, b1)) {
        hide Interpret, Steps, Agrees;
        var a2, b2 := KeepStep(m, Interpret(r, a1), Steps(m, c, b1), n - 1);
        if !StaysOnTape(m, Interpret(r, a1)) {
          NotStayingLater(m, r, a1);
        }
        InterpretMore(r, a1, a2);
        StepsMore(m, c, b1, b2);
        a, b := a1 + a2, b1 + b2;
      }
    }
  }

  lemma FinishedStays(m: Machine, r: State, c: Config, n: nat)
    requires Finished(m, r, c)
    ensures Finished(m, Interpret(r, n), Steps(m, c, n))
  {
    StaysHalted(r, n);
    StaysStopped(m.code, m.heap, c, n);
  }

  /**
   The machine keeps step with the interpreter for ever, unless a run of moves takes the head off the tape:
   beyond any `n` there are points of the two runs at which they agree.
   */
  lemma Preserves(m: Machine, ops: seq<Op>, input: seq<byte>, n: nat) returns (a: nat, b: nat)
    requires Compiled(m, ops) && (m.bounds ==> m.mem > 0)
    ensures var r, c := Interpret(Source(m, Expand(ops), input), a), Steps(m, Boot(input), b);
      (a >= n && b >= n && Agrees(m, r, c)) || (LeftTape(m, r, c) && !StaysOnTape(m, Source(m, Expand(ops), input)))
  {
    hide InStep, Compiled, Steps, Interpret, LeftTape, Finished, Expand, MovesApart, StaysOnTape;
    CompiledApart(m, ops);
    var k := 3 + Flag(m.bounds);
    HeaderRuns(m, ops, input);
    BootedInStep(m, ops, input);
    var b1;
    a, b1 := KeepStep(m, Source(m, Expand(ops), input), Booted(m, input), n);
    StepsMore(m, Boot(input), k, b1);
    b := k + b1;
  }

  lemma CompiledApart(m: Machine, ops: seq<Op>)
    requires Compiled(m, ops)
    ensures MovesApart(ops)
  {
  }

  // ---------------------------------------------------------------- what follows for whole runs

  /** With the head checked, no run ever touches memory outside the tape, whatever the program. */
  lemma NeverFaults(m: Machine, ops: seq<Op>, input: seq<byte>, n: nat)
    requires Compiled(m, ops) && m.bounds && m.mem > 0
    ensures !Steps(m, Boot(input), n).status.Faulted?
  {
    hide Compiled, Steps, Interpret, Expand, MovesApart, StaysOnTape;
    var a, b := Preserves(m, ops, input, n);
    if Steps(m, Boot(input), n).status.Faulted? {
      if b >= n {
        StepsMore(m, Boot(input), n, b - n);
        StoppedSteps(m, Steps(m, Boot(input), n), b - n);
      } else {
        StepsMore(m, Boot(input), b, n - b);
        StoppedSteps(m, Steps(m, Boot(input), b), n - b);
      }
    }
  }

  lemma StoppedSteps(m: Machine, c: Config, n: nat)
    requires !c.status.Running?
    ensures Steps(m, c, n) == c
  {
    StaysStopped(m.code, m.heap, c, n);
  }

  /** If every run of moves ends on the tape and the interpreter comes to the end, the machine returns with the same results. */
  lemma HaltingPreserved(m: Machine, ops: seq<Op>, input: seq<byte>, n: nat) returns (b: nat)
    requires Compiled(m, ops) && (m.bounds ==> m.mem > 0)
    requires StaysOnTape(m, Source(m, Expand(ops), input))
    requires Interpret(Source(m, Expand(ops), input), n).rest == []
    ensures Finished(m, Interpret(Source(m, Expand(ops), input), n), Steps(m, Boot(input), b))
    ensures m.last == AfterAll(m.bounds, ops, HeaderEnd(m.bounds)).head
    ensures Get(Steps(m, Boot(input), b).regs, m.last) == m.heap.base + Interpret(Source(m, Expand(ops), input), n).head
  {
    hide Compiled, Steps, Interpret, Expand, Finished, InStep, AfterAll, HeaderEnd, MovesApart, StaysOnTape;
    LastRegister(m, ops);
    var r0 := Source(m, Expand(ops), input);
    var a;
    a, b := Preserves(m, ops, input, n);
    InterpretMore(r0, n, a - n);
    StaysHalted(Interpret(r0, n), a - n);
    var r := Interpret(r0, n);
    if !Finished(m, r, Steps(m, Boot(input), b)) {
      var ops1, h :| InStep(m, r, Steps(m, Boot(input), b), ops1, h);
      if ops1 != [] {
        StillToDo(m, r, Steps(m, Boot(input), b), ops1, h);
      }
      EndKeepsStep(m, r, Steps(m, Boot(input), b), h);
      StepsMore(m, Boot(input), b, 3);
      b := b + 3;
    }
    FinishedHead(m, r, Steps(m, Boot(input), b));
  }

  lemma LastRegister(m: Machine, ops: seq<Op>)
    requires Compiled(m, ops)
    ensures m.last == AfterAll(m.bounds, ops, HeaderEnd(m.bounds)).head
  {
  }

  lemma FinishedHead(m: Machine, r: State, c: Config)
    requires Finished(m, r, c)
    ensures Get(c.regs, m.last) == m.heap.base + r.head
  {
  }

  lemma StillToDo(m: Machine, r: State, c: Config, ops: seq<Op>, h: Reg)
    requires InStep(m, r, c, ops, h) && ops != []
    ensures r.rest != []
  {
    hide Framed, SameData, Holds;
    FirstDone(ops);
    assert EmittedOp(m.code, m.bounds, ops[0], Pos(c.block, c.idx, h));
    assert Commands(ops[0]) != [];
  }

  /**
   If the machine returns, the interpreter has come to the end with the same results, or, with the head
   checked, it has taken the head off the tape and the machine has said so.
   */
  lemma ReturnJustified(m: Machine, ops: seq<Op>, input: seq<byte>, n: nat) returns (a: nat)
    requires Compiled(m, ops) && (m.bounds ==> m.mem > 0)
    requires Steps(m, Boot(input), n).status.Returned?
    ensures m.last == AfterAll(m.bounds, ops, HeaderEnd(m.bounds)).head
    ensures var r, c := Interpret(Source(m, Expand(ops), input), a), Steps(m, Boot(input), n);
      (Finished(m, r, c) && Get(c.regs, m.last) == m.heap.base + r.head)
      || (m.bounds && !OnTape(m, r.head) && c.out == r.out + [HeadLeftTape])
  {
    hide Compiled, Steps, Interpret, Expand, SameTape, AfterAll, HeaderEnd, MovesApart, StaysOnTape;
    LastRegister(m, ops);
    var b;
    a, b := Preserves(m, ops, input, n);
    if b >= n {
      StepsMore(m, Boot(input), n, b - n);
      StoppedSteps(m, Steps(m, Boot(input), n), b - n);
    } else {
      StepsMore(m, Boot(input), b, n - b);
      StoppedSteps(m, Steps(m, Boot(input), b), n - b);
    }
  }

  /** If every run of moves ends on the tape, all that a program writes is written, even if it never ends, and nothing else is. */
  lemma OutputPreserved(m: Machine, ops: seq<Op>, input: seq<byte>, n: nat) returns (a: nat, b: nat)
    requires Compiled(m, ops) && (m.bounds ==> m.mem > 0)
    requires StaysOnTape(m, Source(m, Expand(ops), input))
    ensures Interpret(Source(m, Expand(ops), input), n).out <= Steps(m, Boot(input), b).out
    ensures Steps(m, Boot(input), n).out <= Interpret(Source(m, Expand(ops), input), a).out
  {
    hide Compiled, Steps, Interpret, Expand, Framed, SameTape, Emitted, MovesApart, StaysOnTape;
    var r0 := Source(m, Expand(ops), input);
    a, b := Preserves(m, ops, input, n);
    InterpretMore(r0, n, a - n);
    OutputGrows(Interpret(r0, n), a - n);
    StepsMore(m, Boot(input), n, b - n);
    StepsGrow(m, Steps(m, Boot(input), n), b - n);
  }

  lemma StepsGrow(m: Machine, c: Config, n: nat)
    ensures c.out <= Steps(m, c, n).out
  {
    RunOutputGrows(m.code, m.heap, c, n);
  }
}
