/**
 The part of LLVM's intermediate representation that examples/BrainF/BrainF.cpp emits, and a machine that
 runs it.  A block is a list of instructions, the last of them a terminator, behind an optional phi node.
 */
module BrainFCode {
  import opened BrainFLanguage
  import opened Wrappers

  type Reg = nat

  datatype Instr =
    | Malloc(dst: Reg, size: int)
    | Memset(ptr: Reg, val: byte, size: int)
    | Gep(dst: Reg, ptr: Reg, offset: int)
    | GetChar(dst: Reg)
    | PutChar(src: Reg)
    | Puts
    | Trunc(dst: Reg, src: Reg)         // i32 to i8
    | SExt(dst: Reg, src: Reg)          // i8 to i32
    | Load(dst: Reg, ptr: Reg)
    | Store(src: Reg, ptr: Reg)
    | Add(dst: Reg, src: Reg, k: byte)  // i8
    | IsZero(dst: Reg, src: Reg)
    | UGe(dst: Reg, left: Reg, right: Reg)
    | ULt(dst: Reg, left: Reg, right: Reg)
    | Or(dst: Reg, left: Reg, right: Reg)
    | Free(ptr: Reg)
    | Br(target: nat)
    | CondBr(cond: Reg, ifTrue: nat, ifFalse: nat)
    | Ret

  /** `incoming` pairs a value with the predecessor it comes from. */
  datatype Phi = NoPhi | Phi(dst: Reg, incoming: seq<(Reg, nat)>)

  datatype Block = Block(phi: Phi, code: seq<Instr>)

  type Code = seq<Block>

  predicate IsTerminator(i: Instr) {
    i.Br? || i.CondBr? || i.Ret?
  }

  function Targets(i: Instr): set<nat> {
    match i
    case Br(t) => {t}
    case CondBr(_, t, f) => {t, f}
    case _ => {}
  }

  function Incoming(incoming: seq<(Reg, nat)>, from: nat): Option<Reg> {
    if incoming == [] then None
    else if incoming[0].1 == from then Some(incoming[0].0)
    else Incoming(incoming[1..], from)
  }

  lemma {:induction false} IncomingKept(a: seq<(Reg, nat)>, b: seq<(Reg, nat)>, from: nat)
    requires a <= b && Incoming(a, from).Some?
    ensures Incoming(b, from) == Incoming(a, from)
  {
    if a[0].1 != from {
      IncomingKept(a[1..], b[1..], from);
    }
  }

  lemma {:induction false} IncomingLast(a: seq<(Reg, nat)>, v: Reg, from: nat)
    requires Incoming(a, from).None?
    ensures Incoming(a + [(v, from)], from) == Some(v)
  {
    if a != [] {
      IncomingLast(a[1..], v, from);
      assert (a + [(v, from)])[1..] == a[1..] + [(v, from)];
    }
  }

  lemma {:induction false} IncomingNone(a: seq<(Reg, nat)>, from: nat)
    requires forall k :: 0 <= k < |a| ==> a[k].1 != from
    ensures Incoming(a, from).None?
  {
    if a != [] {
      IncomingNone(a[1..], from);
    }
  }

  // ---------------------------------------------------------------- the machine

  datatype Status = Running | Returned | Faulted

  /** Where malloc puts the tape, and what it finds there. */
  datatype Heap = Heap(base: int, junk: int -> byte)

  datatype Config = Config(block: nat, idx: nat, regs: map<Reg, int>, mem: map<int, byte>, live: bool,
                           input: seq<byte>, out: seq<Event>, status: Status)

  function Get(regs: map<Reg, int>, r: Reg): int {
    if r in regs then regs[r] else 0
  }

  function Fault(c: Config): Config {
    c.(status := Faulted)
  }

  /** The instruction done, with `v` as its result. */
  function Result(c: Config, dst: Reg, v: int): Config {
    c.(idx := c.idx + 1, regs := c.regs[dst := v])
  }

  function Done(c: Config): Config {
    c.(idx := c.idx + 1)
  }

  function Enter(p: Code, c: Config, b: nat): Config {
    if b >= |p| then Fault(c)
    else if p[b].phi.NoPhi? then c.(block := b, idx := 0)
    else
      var v := Incoming(p[b].phi.incoming, c.block);
      if v.None? then Fault(c)
      else c.(block := b, idx := 0, regs := c.regs[p[b].phi.dst := Get(c.regs, v.value)])
  }

  function Flag(b: bool): int {
    if b then 1 else 0
  }

  function Allocated(e: Heap, n: int): map<int, byte> {
    map a | e.base <= a < e.base + n :: e.junk(a)
  }

  predicate InMemory(mem: map<int, byte>, a: int, n: int) {
    forall k :: a <= k < a + n ==> k in mem
  }

  function Filled(mem: map<int, byte>, a: int, n: int, v: byte): map<int, byte> {
    map k | k in mem :: if a <= k < a + n then v else mem[k]
  }

  ghost function Execute(p: Code, e: Heap, c: Config, i: Instr): Config {
    match i
    case Malloc(dst, n) =>
      Result(c, dst, e.base).(mem := Allocated(e, n), live := true)
    case Memset(ptr, v, n) =>
      var a := Get(c.regs, ptr);
      if c.live && InMemory(c.mem, a, n) then Done(c).(mem := Filled(c.mem, a, n, v)) else Fault(c)
    case Gep(dst, ptr, k) => Result(c, dst, Get(c.regs, ptr) + k)
    case GetChar(dst) =>
      Result(c, dst, if c.input == [] then -1 else c.input[0]).(input := Tail(c.input))
    case PutChar(src) => Done(c).(out := c.out + [Char(Get(c.regs, src) % 256)])
    case Puts => Done(c).(out := c.out + [HeadLeftTape])
    case Trunc(dst, src) => Result(c, dst, Get(c.regs, src) % 256)
    case SExt(dst, src) =>
      var v := Get(c.regs, src) % 256;
      Result(c, dst, if v >= 128 then v - 256 else v)
    case Load(dst, ptr) =>
      var a := Get(c.regs, ptr);
      if c.live && a in c.mem then Result(c, dst, c.mem[a]) else Fault(c)
    case Store(src, ptr) =>
      var a := Get(c.regs, ptr);
      if c.live && a in c.mem then Done(c).(mem := c.mem[a := Get(c.regs, src) % 256]) else Fault(c)
    case Add(dst, src, k) => Result(c, dst, (Get(c.regs, src) + k) % 256)
    case IsZero(dst, src) => Result(c, dst, Flag(Get(c.regs, src) == 0))
    case UGe(dst, a, b) => Result(c, dst, Flag(Get(c.regs, a) >= Get(c.regs, b)))
    case ULt(dst, a, b) => Result(c, dst, Flag(Get(c.regs, a) < Get(c.regs, b)))
    case Or(dst, a, b) => Result(c, dst, Flag(Get(c.regs, a) != 0 || Get(c.regs, b) != 0))
    case Free(ptr) => Done(c).(live := false)
    case Br(t) => Enter(p, c, t)
    case CondBr(cond, t, f) => Enter(p, c, if Get(c.regs, cond) != 0 then t else f)
    case Ret => c.(status := Returned)
  }

  // One instruction at a time, so that proofs about sequences need not look at all of them.

  lemma LoadDone(p: Code, e: Heap, c: Config, dst: Reg, ptr: Reg)
    ensures Execute(p, e, c, Load(dst, ptr)) ==
      if c.live && Get(c.regs, ptr) in c.mem then Result(c, dst, c.mem[Get(c.regs, ptr)]) else Fault(c)
  {
  }

  lemma StoreDone(p: Code, e: Heap, c: Config, src: Reg, ptr: Reg)
    ensures Execute(p, e, c, Store(src, ptr)) ==
      if c.live && Get(c.regs, ptr) in c.mem then Done(c).(mem := c.mem[Get(c.regs, ptr) := Get(c.regs, src) % 256]) else Fault(c)
  {
  }

  lemma AddDone(p: Code, e: Heap, c: Config, dst: Reg, src: Reg, k: byte)
    ensures Execute(p, e, c, Add(dst, src, k)) == Result(c, dst, (Get(c.regs, src) + k) % 256)
  {
  }

  lemma CastDone(p: Code, e: Heap, c: Config, dst: Reg, src: Reg)
    ensures Execute(p, e, c, Trunc(dst, src)) == Result(c, dst, Get(c.regs, src) % 256)
    ensures Execute(p, e, c, SExt(dst, src)) ==
      Result(c, dst, if Get(c.regs, src) % 256 >= 128 then Get(c.regs, src) % 256 - 256 else Get(c.regs, src) % 256)
  {
  }

  lemma CallDone(p: Code, e: Heap, c: Config, r: Reg)
    ensures Execute(p, e, c, PutChar(r)) == Done(c).(out := c.out + [Char(Get(c.regs, r) % 256)])
    ensures Execute(p, e, c, GetChar(r)) == Result(c, r, if c.input == [] then -1 else c.input[0]).(input := Tail(c.input))
  {
  }

  lemma CompareDone(p: Code, e: Heap, c: Config, dst: Reg, a: Reg, b: Reg)
    ensures Execute(p, e, c, UGe(dst, a, b)) == Result(c, dst, Flag(Get(c.regs, a) >= Get(c.regs, b)))
    ensures Execute(p, e, c, ULt(dst, a, b)) == Result(c, dst, Flag(Get(c.regs, a) < Get(c.regs, b)))
    ensures Execute(p, e, c, Or(dst, a, b)) == Result(c, dst, Flag(Get(c.regs, a) != 0 || Get(c.regs, b) != 0))
  {
  }

  ghost function Step(p: Code, e: Heap, c: Config): Config {
    if !c.status.Running? then c
    else if c.block >= |p| || c.idx >= |p[c.block].code| then Fault(c)
    else Execute(p, e, c, p[c.block].code[c.idx])
  }

  /** `n` instructions of the program. */
  ghost function Run(p: Code, e: Heap, c: Config, n: nat): Config
    decreases n
  {
    if n == 0 then c else Run(p, e, Step(p, e, c), n - 1)
  }

  lemma {:induction false} RunMore(p: Code, e: Heap, c: Config, a: nat, b: nat)
    ensures Run(p, e, c, a + b) == Run(p, e, Run(p, e, c, a), b)
    decreases a
  {
    if a != 0 {
      RunMore(p, e, Step(p, e, c), a - 1, b);
    }
  }

  lemma {:induction false} StaysStopped(p: Code, e: Heap, c: Config, n: nat)
    requires !c.status.Running?
    ensures Run(p, e, c, n) == c
    decreases n
  {
    if n != 0 {
      StaysStopped(p, e, c, n - 1);
    }
  }

  /** Only the calls that write change the output. */
  lemma ExecuteOutput(p: Code, e: Heap, c: Config, i: Instr)
    ensures Execute(p, e, c, i).out == c.out + if i.PutChar? then [Char(Get(c.regs, i.src) % 256)] else if i.Puts? then [HeadLeftTape] else []
  {
    hide Incoming, Get, Tail;
    if !i.PutChar? && !i.Puts? {
      assert Execute(p, e, c, i).out == c.out;
    }
  }

  lemma {:induction false} RunOutputGrows(p: Code, e: Heap, c: Config, n: nat)
    ensures c.out <= Run(p, e, c, n).out
    decreases n
  {
    hide Execute;
    if n != 0 {
      if c.status.Running? && c.block < |p| && c.idx < |p[c.block].code| {
        ExecuteOutput(p, e, c, p[c.block].code[c.idx]);
      }
      RunOutputGrows(p, e, Step(p, e, c), n - 1);
    }
  }

  /** The instructions `ins` stand in block `b` from index `i`. */
  ghost predicate Holds(p: Code, b: nat, i: nat, ins: seq<Instr>) {
    b < |p| && i + |ins| <= |p[b].code| && p[b].code[i..i + |ins|] == ins
  }

  lemma HoldsAt(p: Code, b: nat, i: nat, ins: seq<Instr>, k: nat)
    requires Holds(p, b, i, ins) && k < |ins|
    ensures b < |p| && i + k < |p[b].code| && p[b].code[i + k] == ins[k]
  {
    assert p[b].code[i..i + |ins|][k] == ins[k];
  }

  lemma HoldsPart(p: Code, b: nat, i: nat, ins: seq<Instr>, n: nat)
    requires Holds(p, b, i, ins) && n <= |ins|
    ensures Holds(p, b, i, ins[..n]) && Holds(p, b, i + n, ins[n..])
  {
    assert p[b].code[i..i + n] == ins[..n];
    assert p[b].code[i + n..i + |ins|] == ins[n..];
  }

  lemma OneStep(p: Code, e: Heap, c: Config, i: Instr)
    requires c.status.Running? && Holds(p, c.block, c.idx, [i])
    ensures Step(p, e, c) == Execute(p, e, c, i) && Run(p, e, c, 1) == Step(p, e, c)
  {
    HoldsAt(p, c.block, c.idx, [i], 0);
    assert Run(p, e, Step(p, e, c), 0) == Step(p, e, c);
  }

  lemma ThreeSteps(p: Code, e: Heap, c: Config, ins: seq<Instr>, c1: Config, c2: Config)
    requires c.status.Running? && Holds(p, c.block, c.idx, ins) && |ins| == 3
    requires c1 == Execute(p, e, c, ins[0])
    requires c1.status.Running? ==> c1.block == c.block && c1.idx == c.idx + 1 && c2 == Execute(p, e, c1, ins[1])
    requires !c1.status.Running? ==> c2 == c1
    requires c2.status.Running? ==> c2.block == c.block && c2.idx == c.idx + 2
    ensures Run(p, e, c, 3) == if c2.status.Running? then Execute(p, e, c2, ins[2]) else c2
  {
    hide Execute;
    HoldsAt(p, c.block, c.idx, ins, 0);
    HoldsAt(p, c.block, c.idx, ins, 1);
    HoldsAt(p, c.block, c.idx, ins, 2);
    assert Step(p, e, c) == c1 && Step(p, e, c1) == c2;
    assert Run(p, e, c, 3) == Step(p, e, c2);
  }
}
