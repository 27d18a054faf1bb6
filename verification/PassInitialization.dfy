/**
 The once-only initialization of passes in include/llvm/PassSupport.h: the CALL_ONCE_INITIALIZATION
 protocol, which the INITIALIZE_* macros run on one flag per pass or analysis group.  Any number of
 threads take atomic steps in any order, on a sequentially consistent memory.
 */
module PassInitialization {
  import Arithmetic

  type Id = nat

  /** What the macros declare for a pass or an analysis group. */
  datatype Decl =
    | Pass(deps: seq<Id>)                             // INITIALIZE_PASS_BEGIN, _DEPENDENCY, _END
    | GroupPass(group: Id, def: bool, deps: seq<Id>)  // INITIALIZE_AG_PASS_BEGIN, _DEPENDENCY, _END
    | Group(defaultPass: Id)                          // INITIALIZE_ANALYSIS_GROUP

  type Program = map<Id, Decl>

  /** What a declaration asks to be initialized before it. */
  predicate Declares(d: Decl, x: Id) {
    match d
    case Pass(deps) => x in deps
    case GroupPass(group, def, deps) => x in deps || (!def && x == group)
    case Group(p) => x == p
  }

  /** The initializations that the once-only body runs, in order, before it registers anything. */
  function Calls(d: Decl): (calls: seq<Id>)
    ensures forall x :: x in calls <==> Declares(d, x)
  {
    match d
    case Pass(deps) => deps
    case GroupPass(group, def, deps) => (if def then [] else [group]) + deps
    case Group(p) => [p]
  }

  ghost predicate WellFormed(p: Program) {
    forall id :: id in p ==> forall d :: Declares(p[id], d) ==> d in p
  }

  /** Where an activation of an initialize function stands; `Inside(n)` has made `n` of its calls. */
  datatype Pc = Entering | Spinning | Inside(n: nat) | Publishing

  datatype Frame = Frame(id: Id, pc: Pc)

  /** A thread: its activations, the innermost last, the calls it has still to make and all that have returned. */
  datatype Thread = Thread(frames: seq<Frame>, todo: seq<Id>, returned: set<Id>)

  /** The flags are `initialized` of each id; `owner` records whose compare-and-swap has won. */
  datatype State = State(flags: map<Id, int>, owner: map<Id, nat>, threads: seq<Thread>, registered: seq<Id>)

  function Top(th: Thread): Frame
    requires th.frames != []
  {
    th.frames[|th.frames| - 1]
  }

  function Pop(th: Thread): Thread
    requires th.frames != []
  {
    Thread(th.frames[..|th.frames| - 1], th.todo, th.returned + {Top(th).id})
  }

  function At(th: Thread, pc: Pc): Thread
    requires th.frames != []
  {
    th.(frames := th.frames[|th.frames| - 1 := Top(th).(pc := pc)])
  }

  function Push(th: Thread, id: Id): Thread {
    th.(frames := th.frames + [Frame(id, Entering)])
  }

  function Put(s: State, t: nat, th: Thread): State
    requires t < |s.threads|
  {
    s.(threads := s.threads[t := th])
  }

  ghost predicate Typed(p: Program, s: State) {
    s.flags.Keys == p.Keys && forall t :: 0 <= t < |s.threads| ==> ThreadTyped(p, s.threads[t])
  }

  ghost predicate ThreadTyped(p: Program, th: Thread) {
    (forall k :: 0 <= k < |th.frames| ==> th.frames[k].id in p) && forall id :: id in th.todo ==> id in p
  }

  /** The next atomic step of thread `t` (PassSupport.h:36-54). */
  function Step(p: Program, s: State, t: nat): State
    requires t < |s.threads| && Typed(p, s)
  {
    var th := s.threads[t];
    if th.frames == [] then
      if th.todo == [] then s else Put(s, t, Push(th, th.todo[0]).(todo := th.todo[1..]))
    else
      var id := Top(th).id;
      match Top(th).pc
      case Entering =>
        if s.flags[id] == 0
        then Put(s, t, At(th, Inside(0))).(flags := s.flags[id := 1], owner := s.owner[id := t])
        else Put(s, t, At(th, Spinning))
      case Spinning => if s.flags[id] == 2 then Put(s, t, Pop(th)) else s
      case Inside(n) =>
        if n < |Calls(p[id])|
        then Put(s, t, Push(At(th, Inside(n + 1)), Calls(p[id])[n]))
        else Put(s, t, At(th, Publishing)).(registered := s.registered + [id])
      case Publishing => Put(s, t, Pop(th)).(flags := s.flags[id := 2])
  }

  // ---------------------------------------------------------------- the invariant

  predicate IsRunning(f: Frame) {
    f.pc.Inside? || f.pc.Publishing?
  }

  /** The first `n` calls of `id` have been carried out. */
  ghost predicate CallsDone(p: Program, flags: map<Id, int>, id: Id, n: nat) {
    id in p && n <= |Calls(p[id])| && forall i :: 0 <= i < n ==> Calls(p[id])[i] in flags && flags[Calls(p[id])[i]] == 2
  }

  /** An activation that waits for the call it has made. */
  ghost predicate Waits(p: Program, flags: map<Id, int>, f: Frame, callee: Id) {
    f.pc.Inside? && f.pc.n > 0 && CallsDone(p, flags, f.id, f.pc.n - 1) && f.pc.n <= |Calls(p[f.id])| && Calls(p[f.id])[f.pc.n - 1] == callee
  }

  ghost predicate WaitsAt(p: Program, flags: map<Id, int>, fs: seq<Frame>, k: nat)
    requires k + 1 < |fs|
  {
    Waits(p, flags, fs[k], fs[k + 1].id)
  }

  ghost predicate TopOk(p: Program, flags: map<Id, int>, f: Frame) {
    f.id in p && f.id in flags &&
    match f.pc
    case Entering => true
    case Spinning => flags[f.id] != 0
    case Inside(n) => CallsDone(p, flags, f.id, n)
    case Publishing => CallsDone(p, flags, f.id, |Calls(p[f.id])|)
  }

  ghost predicate StackOk(p: Program, flags: map<Id, int>, th: Thread) {
    && (forall k :: 0 <= k < |th.frames| - 1 ==> WaitsAt(p, flags, th.frames, k))
    && (th.frames != [] ==> TopOk(p, flags, Top(th)))
    && (forall id :: id in th.returned ==> id in flags && flags[id] == 2)
  }

  /** The running activations of thread `t` own their flags, each its own. */
  ghost predicate Owns(s: State, t: nat)
    requires t < |s.threads|
  {
    var fs := s.threads[t].frames;
    && (forall k :: 0 <= k < |fs| && IsRunning(fs[k]) ==>
      fs[k].id in s.flags && s.flags[fs[k].id] == 1 && fs[k].id in s.owner && s.owner[fs[k].id] == t)
    && (forall j, k :: 0 <= j < k < |fs| && IsRunning(fs[j]) && IsRunning(fs[k]) ==> fs[j].id != fs[k].id)
  }

  /** Thread `th` has the activation that runs the body of `id`; `published` if it has registered it. */
  ghost predicate Runs(th: Thread, id: Id, published: bool) {
    exists k :: 0 <= k < |th.frames| && th.frames[k].id == id && IsRunning(th.frames[k]) && (published <==> th.frames[k].pc.Publishing?)
  }

  /** What flag `id` says about the rest of the state. */
  ghost predicate FlagOk(s: State, id: Id)
    requires id in s.flags
  {
    && 0 <= s.flags[id] <= 2
    && (s.flags[id] == 0 ==> id !in s.registered)
    && (s.flags[id] == 2 ==> id in s.registered)
    && (s.flags[id] == 1 ==> id in s.owner && s.owner[id] < |s.threads| && Runs(s.threads[s.owner[id]], id, id in s.registered))
  }

  /** Nothing is registered twice, and everything after all that it depends on. */
  ghost predicate InOrder(p: Program, registered: seq<Id>) {
    && (forall j, k :: 0 <= j < k < |registered| ==> registered[j] != registered[k])
    && (forall j :: 0 <= j < |registered| ==> registered[j] in p && forall d :: Declares(p[registered[j]], d) ==> d in registered[..j])
  }

  ghost predicate Inv(p: Program, s: State) {
    && WellFormed(p) && Typed(p, s)
    && (forall t :: 0 <= t < |s.threads| ==> StackOk(p, s.flags, s.threads[t]) && Owns(s, t))
    && (forall id :: id in s.flags ==> FlagOk(s, id))
    && InOrder(p, s.registered)
  }

  // ---------------------------------------------------------------- each step keeps the invariant

  /** What the invariant says about thread `t`. */
  lemma InvAt(p: Program, s: State, t: nat)
    requires Inv(p, s) && t < |s.threads|
    ensures Typed(p, s) && s.flags.Keys == p.Keys && ThreadTyped(p, s.threads[t]) && StackOk(p, s.flags, s.threads[t]) && Owns(s, t)
    ensures s.threads[t].frames != [] ==>
      Top(s.threads[t]).id in p && FlagOk(s, Top(s.threads[t]).id) && TopOk(p, s.flags, Top(s.threads[t]))
    ensures InOrder(p, s.registered)
  {
  }

  lemma CalleeKnown(p: Program, s: State, id: Id, n: nat)
    requires Inv(p, s) && id in p && n < |Calls(p[id])|
    ensures Calls(p[id])[n] in p
  {
    assert Calls(p[id])[n] in Calls(p[id]);
  }

  /** Flags only go up, and only one of them at a time. */
  ghost predicate FlagsUp(flags: map<Id, int>, flags': map<Id, int>, id: Id) {
    flags.Keys == flags'.Keys && forall x :: x in flags ==> if x == id then flags[x] != 2 && flags'[x] != 0 else flags'[x] == flags[x]
  }

  lemma StackStillOk(p: Program, flags: map<Id, int>, flags': map<Id, int>, id: Id, th: Thread)
    requires StackOk(p, flags, th) && FlagsUp(flags, flags', id)
    ensures StackOk(p, flags', th)
  {
    forall k | 0 <= k < |th.frames| - 1 ensures WaitsAt(p, flags', th.frames, k) {
      assert WaitsAt(p, flags, th.frames, k);
    }
  }

  /** A thread goes on without touching flags: it calls, or fails to win a flag. */
  lemma QuietStep(p: Program, s: State, t: nat, th: Thread)
    requires Inv(p, s) && t < |s.threads| && StackOk(p, s.flags, th) && ThreadTyped(p, th)
    requires Owns(Put(s, t, th), t)
    requires forall id, b :: Runs(s.threads[t], id, b) ==> Runs(th, id, b)
    ensures Inv(p, Put(s, t, th))
  {
    var s' := Put(s, t, th);
    hide Runs, StackOk, InOrder;
    forall u | 0 <= u < |s'.threads| ensures StackOk(p, s'.flags, s'.threads[u]) && Owns(s', u) {
      assert u != t ==> Owns(s, u);
    }
    forall id | id in s'.flags ensures FlagOk(s', id) {
      assert FlagOk(s, id);
    }
  }

  lemma Called(p: Program, s: State, t: nat)
    requires Inv(p, s) && t < |s.threads| && s.threads[t].frames == [] && s.threads[t].todo != []
    ensures Inv(p, Step(p, s, t))
  {
    InvAt(p, s, t);
    hide Inv, InOrder, WellFormed;
    var th := s.threads[t];
    QuietStep(p, s, t, Push(th, th.todo[0]).(todo := th.todo[1..]));
  }

  lemma SpinRuns(th: Thread, id: Id, b: bool)
    requires th.frames != [] && Top(th).pc.Entering? && Runs(th, id, b)
    ensures Runs(At(th, Spinning), id, b)
  {
    var k :| 0 <= k < |th.frames| && th.frames[k].id == id && IsRunning(th.frames[k]) && (b <==> th.frames[k].pc.Publishing?);
    assert At(th, Spinning).frames[k] == th.frames[k];
  }

  lemma SpinOwns(s: State, t: nat)
    requires t < |s.threads| && Owns(s, t) && s.threads[t].frames != []
    ensures Owns(Put(s, t, At(s.threads[t], Spinning)), t)
  {
  }

  lemma SpinTyped(p: Program, th: Thread)
    requires ThreadTyped(p, th) && th.frames != []
    ensures ThreadTyped(p, At(th, Spinning))
  {
  }

  lemma Lost(p: Program, s: State, t: nat)
    requires Inv(p, s) && t < |s.threads| && s.threads[t].frames != [] && Top(s.threads[t]).pc.Entering?
    requires s.flags[Top(s.threads[t]).id] != 0
    ensures Inv(p, Step(p, s, t))
  {
    InvAt(p, s, t);
    hide Inv, InOrder, WellFormed, Owns, Runs, StackOk, ThreadTyped, FlagOk, CallsDone;
    var th := s.threads[t];
    var th' := At(th, Spinning);
    StackTop(p, s.flags, th, Spinning);
    SpinOwns(s, t);
    SpinTyped(p, th);
    assert Step(p, s, t) == Put(s, t, th');
    hide Step, At, Put, Typed;
    forall id, b | Runs(th, id, b) ensures Runs(th', id, b) {
      SpinRuns(th, id, b);
    }
    QuietStep(p, s, t, th');
  }

  /** Only the top of the stack moves on. */
  lemma StackTop(p: Program, flags: map<Id, int>, th: Thread, pc: Pc)
    requires StackOk(p, flags, th) && th.frames != [] && TopOk(p, flags, Top(th).(pc := pc))
    ensures StackOk(p, flags, At(th, pc))
  {
    var th' := At(th, pc);
    forall k | 0 <= k < |th'.frames| - 1 ensures WaitsAt(p, flags, th'.frames, k) {
      assert WaitsAt(p, flags, th.frames, k);
    }
  }

  lemma PushOk(p: Program, flags: map<Id, int>, th: Thread, n: nat)
    requires StackOk(p, flags, th) && th.frames != [] && Top(th).pc == Inside(n) && n < |Calls(p[Top(th).id])|
    requires Calls(p[Top(th).id])[n] in p && flags.Keys == p.Keys
    ensures StackOk(p, flags, Push(At(th, Inside(n + 1)), Calls(p[Top(th).id])[n]))
  {
    hide Calls, CallsDone;
    var th' := Push(At(th, Inside(n + 1)), Calls(p[Top(th).id])[n]);
    forall k | 0 <= k < |th'.frames| - 1 ensures WaitsAt(p, flags, th'.frames, k) {
      if k < |th.frames| - 1 {
        assert WaitsAt(p, flags, th.frames, k);
      }
    }
  }

  lemma StillRuns(th: Thread, th': Thread, id: Id, b: bool)
    requires Runs(th, id, b) && |th.frames| <= |th'.frames|
    requires forall k :: 0 <= k < |th.frames| ==> th'.frames[k].id == th.frames[k].id
    requires forall k :: 0 <= k < |th.frames| && IsRunning(th.frames[k]) ==>
      IsRunning(th'.frames[k]) && (th'.frames[k].pc.Publishing? <==> th.frames[k].pc.Publishing?)
    ensures Runs(th', id, b)
  {
    var k :| 0 <= k < |th.frames| && th.frames[k].id == id && IsRunning(th.frames[k]) && (b <==> th.frames[k].pc.Publishing?);
    assert th'.frames[k].id == id;
  }

  lemma PushKeeps(s: State, t: nat, n: nat, callee: Id)
    requires t < |s.threads| && s.threads[t].frames != [] && Top(s.threads[t]).pc.Inside? && Owns(s, t)
    ensures var th' := Push(At(s.threads[t], Inside(n)), callee);
      Owns(Put(s, t, th'), t) && forall id, b :: Runs(s.threads[t], id, b) ==> Runs(th', id, b)
  {
    var th, th' := s.threads[t], Push(At(s.threads[t], Inside(n)), callee);
    forall id, b | Runs(th, id, b) ensures Runs(th', id, b) {
      StillRuns(th, th', id, b);
    }
  }

  lemma Nested(p: Program, s: State, t: nat)
    requires Inv(p, s) && t < |s.threads| && s.threads[t].frames != [] && Top(s.threads[t]).pc.Inside?
    requires Top(s.threads[t]).pc.n < |Calls(p[Top(s.threads[t]).id])|
    ensures Inv(p, Step(p, s, t))
  {
    hide Calls, CallsDone, Runs, Waits;
    InvAt(p, s, t);
    hide Inv, InOrder, WellFormed;
    var th := s.threads[t];
    var f := Top(th);
    var callee := Calls(p[f.id])[f.pc.n];
    var th' := Push(At(th, Inside(f.pc.n + 1)), callee);
    CalleeKnown(p, s, f.id, f.pc.n);
    assert Step(p, s, t) == Put(s, t, th') && ThreadTyped(p, th');
    hide StackOk, Runs, FlagOk, Owns, Step, Push, At, ThreadTyped;
    PushOk(p, s.flags, th, f.pc.n);
    PushKeeps(s, t, f.pc.n + 1, callee);
    QuietStep(p, s, t, th');
  }

  /** What an activation has been waiting for is done. */
  lemma WaitOver(p: Program, flags: map<Id, int>, f: Frame, callee: Id)
    requires Waits(p, flags, f, callee) && callee in flags && flags[callee] == 2 && f.id in flags
    ensures TopOk(p, flags, f)
  {
  }

  /** The innermost activation returns, its flag being 2. */
  lemma PopOk(p: Program, flags: map<Id, int>, th: Thread)
    requires StackOk(p, flags, th) && th.frames != [] && ThreadTyped(p, th) && flags.Keys == p.Keys
    requires Top(th).id in flags && flags[Top(th).id] == 2
    ensures StackOk(p, flags, Pop(th)) && ThreadTyped(p, Pop(th))
  {
    var th' := Pop(th);
    hide Waits, TopOk;
    forall k | 0 <= k < |th'.frames| - 1 ensures WaitsAt(p, flags, th'.frames, k) {
      assert WaitsAt(p, flags, th.frames, k);
    }
    if th'.frames != [] {
      var k := |th.frames| - 2;
      assert WaitsAt(p, flags, th.frames, k);
      WaitOver(p, flags, th.frames[k], th.frames[k + 1].id);
    }
  }

  lemma PassedOwns(s: State, t: nat)
    requires t < |s.threads| && s.threads[t].frames != [] && Top(s.threads[t]).pc.Spinning? && Owns(s, t)
    ensures Owns(Put(s, t, Pop(s.threads[t])), t)
    ensures forall id, b :: Runs(s.threads[t], id, b) ==> Runs(Pop(s.threads[t]), id, b)
  {
    var th := s.threads[t];
    forall id, b | Runs(th, id, b) ensures Runs(Pop(th), id, b) {
      var k :| 0 <= k < |th.frames| && th.frames[k].id == id && IsRunning(th.frames[k]) && (b <==> th.frames[k].pc.Publishing?);
      assert Pop(th).frames[k] == th.frames[k];
    }
  }

  lemma Passed(p: Program, s: State, t: nat)
    requires Inv(p, s) && t < |s.threads| && s.threads[t].frames != [] && Top(s.threads[t]).pc.Spinning?
    requires s.flags[Top(s.threads[t]).id] == 2
    ensures Inv(p, Step(p, s, t))
  {
    InvAt(p, s, t);
    hide Inv, InOrder, WellFormed;
    var th' := Pop(s.threads[t]);
    assert Owns(s, t) && StackOk(p, s.flags, s.threads[t]) && Step(p, s, t) == Put(s, t, th');
    PopOk(p, s.flags, s.threads[t]);
    hide Step, StackOk, Owns, Runs, Pop, Inv;
    PassedOwns(s, t);
    QuietStep(p, s, t, th');
  }

  lemma OwnsKept(s: State, s': State, u: nat, id: Id)
    requires u < |s.threads| && u < |s'.threads| && s'.threads[u] == s.threads[u] && Owns(s, u)
    requires FlagsUp(s.flags, s'.flags, id) && (id in s.flags && s.flags[id] == 1 ==> id in s.owner && s.owner[id] != u)
    requires forall x :: x in s.owner && x != id ==> x in s'.owner && s'.owner[x] == s.owner[x]
    ensures Owns(s', u)
  {
  }

  /** Thread `t` goes on, and what it does to flag `id` and to the list of registered passes is right. */
  lemma FlagStep(p: Program, s: State, s': State, t: nat, id: Id)
    requires Inv(p, s) && t < |s.threads| && |s'.threads| == |s.threads|
    requires forall u :: 0 <= u < |s.threads| && u != t ==> s'.threads[u] == s.threads[u]
    requires id in s.flags && FlagsUp(s.flags, s'.flags, id) && (s.flags[id] == 1 ==> id in s.owner && s.owner[id] == t)
    requires forall x :: x in s.owner && x != id ==> x in s'.owner && s'.owner[x] == s.owner[x]
    requires InOrder(p, s'.registered) && forall x :: x != id ==> (x in s'.registered <==> x in s.registered)
    requires StackOk(p, s'.flags, s'.threads[t]) && ThreadTyped(p, s'.threads[t]) && Owns(s', t) && FlagOk(s', id)
    requires forall x, b :: x != id && Runs(s.threads[t], x, b) ==> Runs(s'.threads[t], x, b)
    ensures Inv(p, s')
  {
    hide Runs, StackOk, InOrder, ThreadTyped, Owns;
    forall u | 0 <= u < |s'.threads| ensures StackOk(p, s'.flags, s'.threads[u]) && ThreadTyped(p, s'.threads[u]) && Owns(s', u) {
      if u != t {
        assert Owns(s, u);
        StackStillOk(p, s.flags, s'.flags, id, s.threads[u]);
        OwnsKept(s, s', u, id);
      }
    }
    forall x | x in s'.flags ensures FlagOk(s', x) {
      assert FlagOk(s, x);
    }
  }

  lemma WonOwns(s: State, s': State, t: nat)
    requires t < |s.threads| && t < |s'.threads| && s.threads[t].frames != [] && Owns(s, t)
    requires s'.threads[t] == At(s.threads[t], Inside(0)) && Top(s.threads[t]).id in s.flags
    requires s.flags[Top(s.threads[t]).id] == 0 && s'.flags == s.flags[Top(s.threads[t]).id := 1] && s'.owner == s.owner[Top(s.threads[t]).id := t]
    ensures Owns(s', t) && Runs(s'.threads[t], Top(s.threads[t]).id, false)
    ensures forall x, b :: x != Top(s.threads[t]).id && Runs(s.threads[t], x, b) ==> Runs(s'.threads[t], x, b)
  {
    var th, th' := s.threads[t], s'.threads[t];
    assert th'.frames[|th.frames| - 1] == Frame(Top(th).id, Inside(0));
    forall x, b | x != Top(th).id && Runs(th, x, b) ensures Runs(th', x, b) {
      OtherRuns(th, Inside(0), x, b);
    }
  }

  /** A thread wins flag `id` and starts its body. */
  lemma Won(p: Program, s: State, t: nat)
    requires Inv(p, s) && t < |s.threads| && s.threads[t].frames != [] && Top(s.threads[t]).pc.Entering?
    requires s.flags[Top(s.threads[t]).id] == 0
    ensures Inv(p, Step(p, s, t))
  {
    InvAt(p, s, t);
    hide Inv, InOrder, WellFormed;
    var th, s' := s.threads[t], Step(p, s, t);
    var id := Top(th).id;
    assert Owns(s, t) && FlagOk(s, id);
    hide StackOk, Owns, Runs;
    WonOwns(s, s', t);
    StackStillOk(p, s.flags, s'.flags, id, th);
    StackTop(p, s'.flags, th, Inside(0));
    FlagStep(p, s, s', t, id);
  }

  lemma OrderKept(p: Program, registered: seq<Id>, id: Id)
    requires InOrder(p, registered) && id !in registered && id in p && forall d :: Declares(p[id], d) ==> d in registered
    ensures InOrder(p, registered + [id])
  {
    var r := registered + [id];
    forall j | 0 <= j < |r| ensures r[j] in p && forall d :: Declares(p[r[j]], d) ==> d in r[..j] {
      if j < |registered| {
        assert r[..j] == registered[..j];
      } else {
        assert r[..j] == registered;
      }
    }
  }

  /** The one activation that runs a body tells whether the body has been registered. */
  lemma RunningTop(s: State, t: nat, id: Id)
    requires t < |s.threads| && s.threads[t].frames != [] && Owns(s, t) && IsRunning(Top(s.threads[t])) && Top(s.threads[t]).id == id
    requires id in s.flags && FlagOk(s, id)
    ensures s.flags[id] == 1 && s.owner[id] == t && (id in s.registered <==> Top(s.threads[t]).pc.Publishing?)
  {
    var fs := s.threads[t].frames;
    var k :| 0 <= k < |fs| && fs[k].id == id && IsRunning(fs[k]) && (id in s.registered <==> fs[k].pc.Publishing?);
    assert k == |fs| - 1;
  }

  lemma OtherRuns(th: Thread, pc: Pc, x: Id, b: bool)
    requires th.frames != [] && x != Top(th).id && Runs(th, x, b)
    ensures Runs(At(th, pc), x, b) && Runs(Pop(th), x, b)
  {
    var k :| 0 <= k < |th.frames| && th.frames[k].id == x && IsRunning(th.frames[k]) && (b <==> th.frames[k].pc.Publishing?);
    assert At(th, pc).frames[k] == th.frames[k] && Pop(th).frames[k] == th.frames[k];
  }

  lemma RegistersOwns(s: State, s': State, t: nat)
    requires t < |s.threads| && t < |s'.threads| && s.threads[t].frames != [] && IsRunning(Top(s.threads[t])) && Owns(s, t)
    requires s'.threads[t] == At(s.threads[t], Publishing) && s'.flags == s.flags && s'.owner == s.owner
    ensures Owns(s', t) && Runs(s'.threads[t], Top(s.threads[t]).id, true)
    ensures forall x, b :: x != Top(s.threads[t]).id && Runs(s.threads[t], x, b) ==> Runs(s'.threads[t], x, b)
  {
    var th, th' := s.threads[t], s'.threads[t];
    assert th'.frames[|th.frames| - 1] == Frame(Top(th).id, Publishing);
    forall x, b | x != Top(th).id && Runs(th, x, b) ensures Runs(th', x, b) {
      OtherRuns(th, Publishing, x, b);
    }
  }

  lemma CallsRegistered(p: Program, s: State, id: Id)
    requires Inv(p, s) && id in p && CallsDone(p, s.flags, id, |Calls(p[id])|)
    ensures forall d :: Declares(p[id], d) ==> d in s.registered
  {
    forall d | Declares(p[id], d) ensures d in s.registered {
      var i :| 0 <= i < |Calls(p[id])| && Calls(p[id])[i] == d;
      assert FlagOk(s, d);
    }
  }

  /** The body registers its pass, having made all its calls. */
  lemma Registers(p: Program, s: State, t: nat)
    requires Inv(p, s) && t < |s.threads| && s.threads[t].frames != [] && Top(s.threads[t]).pc.Inside?
    requires Top(s.threads[t]).pc.n >= |Calls(p[Top(s.threads[t]).id])|
    ensures Inv(p, Step(p, s, t))
  {
    InvAt(p, s, t);
    hide Inv, InOrder, WellFormed;
    var th, s' := s.threads[t], Step(p, s, t);
    var id := Top(th).id;
    assert Owns(s, t) && FlagOk(s, id) && TopOk(p, s.flags, Top(th));
    RunningTop(s, t, id);
    hide InOrder, Owns, Runs, CallsDone;
    CallsRegistered(p, s, id);
    OrderKept(p, s.registered, id);
    StackTop(p, s.flags, th, Publishing);
    RegistersOwns(s, s', t);
    hide StackOk;
    FlagStep(p, s, s', t, id);
  }

  lemma PublishesOwns(s: State, s': State, t: nat)
    requires t < |s.threads| && t < |s'.threads| && s.threads[t].frames != [] && IsRunning(Top(s.threads[t])) && Owns(s, t)
    requires s'.threads[t] == Pop(s.threads[t]) && s'.flags == s.flags[Top(s.threads[t]).id := 2] && s'.owner == s.owner
    ensures Owns(s', t)
    ensures forall x, b :: x != Top(s.threads[t]).id && Runs(s.threads[t], x, b) ==> Runs(s'.threads[t], x, b)
  {
    var th := s.threads[t];
    forall x, b | x != Top(th).id && Runs(th, x, b) ensures Runs(Pop(th), x, b) {
      OtherRuns(th, Publishing, x, b);
    }
  }

  /** The winner publishes that the body is finished, and returns. */
  lemma Publishes(p: Program, s: State, t: nat)
    requires Inv(p, s) && t < |s.threads| && s.threads[t].frames != [] && Top(s.threads[t]).pc.Publishing?
    ensures Inv(p, Step(p, s, t))
  {
    InvAt(p, s, t);
    hide Inv, InOrder, WellFormed;
    var th, s' := s.threads[t], Step(p, s, t);
    var id := Top(th).id;
    assert Owns(s, t) && FlagOk(s, id);
    RunningTop(s, t, id);
    hide StackOk, InOrder, Owns, CallsDone, Runs;
    PublishesOwns(s, s', t);
    StackStillOk(p, s.flags, s'.flags, id, th);
    PopOk(p, s'.flags, th);
    FlagStep(p, s, s', t, id);
  }

  /** Every step of every thread keeps the invariant. */
  lemma StepKeeps(p: Program, s: State, t: nat)
    requires Inv(p, s) && t < |s.threads|
    ensures Inv(p, Step(p, s, t))
  {
    hide Inv, Step;
    Unfolded(p, s, t);
    var th := s.threads[t];
    if th.frames == [] {
      if th.todo != [] {
        Called(p, s, t);
      }
    } else {
      match Top(th).pc
      case Entering => if s.flags[Top(th).id] == 0 { Won(p, s, t); } else { Lost(p, s, t); }
      case Spinning => if s.flags[Top(th).id] == 2 { Passed(p, s, t); }
      case Inside(n) => if n < |Calls(p[Top(th).id])| { Nested(p, s, t); } else { Registers(p, s, t); }
      case Publishing => Publishes(p, s, t);
    }
  }

  lemma Unfolded(p: Program, s: State, t: nat)
    requires Inv(p, s) && t < |s.threads|
    ensures Typed(p, s)
    ensures s.threads[t].frames == [] && s.threads[t].todo == [] ==> Step(p, s, t) == s
    ensures s.threads[t].frames != [] && Top(s.threads[t]).pc.Spinning? && s.flags[Top(s.threads[t]).id] != 2 ==> Step(p, s, t) == s
  {
  }

  // ---------------------------------------------------------------- runs

  /** No flag set, nothing registered, and a list of calls for every thread. */
  function Start(p: Program, todos: seq<seq<Id>>): State {
    State(map id | id in p :: 0, map[], seq(|todos|, i requires 0 <= i < |todos| => Thread([], todos[i], {})), [])
  }

  lemma StartKeeps(p: Program, todos: seq<seq<Id>>)
    requires WellFormed(p) && forall i :: 0 <= i < |todos| ==> forall id :: id in todos[i] ==> id in p
    ensures Inv(p, Start(p, todos))
  {
  }

  predicate ScheduleFor(schedule: seq<nat>, threads: nat) {
    forall k :: 0 <= k < |schedule| ==> schedule[k] < threads
  }

  /** The threads take steps as `schedule` says. */
  ghost function Run(p: Program, s: State, schedule: seq<nat>): (r: State)
    requires Inv(p, s) && ScheduleFor(schedule, |s.threads|)
    ensures Inv(p, r) && |r.threads| == |s.threads|
    decreases |schedule|
  {
    if schedule == [] then s
    else
      StepKeeps(p, s, schedule[0]);
      Run(p, Step(p, s, schedule[0]), schedule[1..])
  }

  lemma {:induction false} RunMore(p: Program, s: State, a: seq<nat>, b: seq<nat>)
    requires Inv(p, s) && ScheduleFor(a, |s.threads|) && ScheduleFor(b, |s.threads|)
    ensures Run(p, s, a + b) == Run(p, Run(p, s, a), b)
    decreases |a|
  {
    hide Inv, Step;
    if a == [] {
      assert a + b == b;
    } else {
      assert (a + b)[1..] == a[1..] + b;
      StepKeeps(p, s, a[0]);
      SameThreads(p, s, a[0]);
      RunMore(p, Step(p, s, a[0]), a[1..], b);
    }
  }

  lemma SameThreads(p: Program, s: State, t: nat)
    requires Inv(p, s) && t < |s.threads|
    ensures Typed(p, s) && |Step(p, s, t).threads| == |s.threads|
  {
  }

  /** A body runs in at most one activation at a time, and in none once it has finished. */
  lemma RunsOnce(p: Program, s: State, t: nat, j: nat, u: nat, k: nat)
    requires Inv(p, s) && t < |s.threads| && j < |s.threads[t].frames| && u < |s.threads| && k < |s.threads[u].frames|
    requires IsRunning(s.threads[t].frames[j]) && IsRunning(s.threads[u].frames[k])
    requires s.threads[t].frames[j].id == s.threads[u].frames[k].id
    ensures t == u && j == k && s.flags[s.threads[t].frames[j].id] == 1
  {
    assert Owns(s, t) && Owns(s, u);
  }

  /** Flags never go down, so that a body that has been started is never started again. */
  lemma FlagsNeverFall(p: Program, s: State, t: nat, id: Id)
    requires Inv(p, s) && t < |s.threads| && id in s.flags
    ensures Typed(p, s) && id in Step(p, s, t).flags && s.flags[id] <= Step(p, s, t).flags[id]
  {
    hide Calls, Declares, StackOk, Owns, InOrder;
    assert FlagOk(s, id);
  }

  /** Whoever has returned from an initialization finds it, and all that it depends on, registered. */
  lemma ReturnedRegistered(p: Program, s: State, t: nat, id: Id)
    requires Inv(p, s) && t < |s.threads| && id in s.threads[t].returned
    ensures id in s.registered && s.flags[id] == 2 && id in p && forall d :: Declares(p[id], d) ==> d in s.registered
  {
    assert StackOk(p, s.flags, s.threads[t]);
    assert FlagOk(s, id);
    var j :| 0 <= j < |s.registered| && s.registered[j] == id;
  }

  /** In every run, each pass is registered at most once, and after everything it depends on. */
  lemma RegisteredOnceInOrder(p: Program, todos: seq<seq<Id>>, schedule: seq<nat>)
    requires WellFormed(p) && forall i :: 0 <= i < |todos| ==> forall id :: id in todos[i] ==> id in p
    requires ScheduleFor(schedule, |todos|)
    ensures Inv(p, Start(p, todos))
    ensures var r := Run(p, Start(p, todos), schedule).registered;
      && (forall j, k :: 0 <= j < k < |r| ==> r[j] != r[k])
      && (forall j :: 0 <= j < |r| ==> r[j] in p && AfterDependencies(p[r[j]], r[..j]))
  {
    StartKeeps(p, todos);
    var r := Run(p, Start(p, todos), schedule).registered;
    forall j | 0 <= j < |r| ensures r[j] in p && AfterDependencies(p[r[j]], r[..j]) {
      DependenciesDeclared(p[r[j]]);
    }
  }

  /** The dependencies of a pass are in `before`, so are the group of a pass that is not its default, and the default of a group. */
  ghost predicate AfterDependencies(d: Decl, before: seq<Id>) {
    && (d.Pass? || d.GroupPass? ==> forall i :: 0 <= i < |d.deps| ==> d.deps[i] in before)
    && (d.GroupPass? && !d.def ==> d.group in before)
    && (d.Group? ==> d.defaultPass in before)
  }

  lemma DependenciesDeclared(d: Decl)
    ensures d.Pass? || d.GroupPass? ==> forall i :: 0 <= i < |d.deps| ==> Declares(d, d.deps[i])
    ensures d.GroupPass? && !d.def ==> Declares(d, d.group)
    ensures d.Group? ==> Declares(d, d.defaultPass)
  {
  }

  /** An activation inside a body has called what is declared, in the order of the declaration, one after the other. */
  ghost predicate CalledInTurn(d: Decl, n: nat, callee: Id, flags: map<Id, int>) {
    match d
    case Pass(deps) =>
      0 < n <= |deps| && callee == deps[n - 1] && forall i :: 0 <= i < n - 1 ==> deps[i] in flags && flags[deps[i]] == 2
    case GroupPass(group, def, deps) =>
      var m := if def then n else n - 1;
      && 0 <= m <= |deps| && (if m == 0 then n == 1 && callee == group else callee == deps[m - 1])
      && (!def && m > 0 ==> group in flags && flags[group] == 2)
      && forall i :: 0 <= i < m - 1 ==> deps[i] in flags && flags[deps[i]] == 2
    case Group(q) => n == 1 && callee == q
  }

  lemma NestedInTurn(p: Program, s: State, t: nat, k: nat)
    requires Inv(p, s) && t < |s.threads| && k + 1 < |s.threads[t].frames|
    ensures var f := s.threads[t].frames[k];
      f.id in p && f.pc.Inside? && CalledInTurn(p[f.id], f.pc.n, s.threads[t].frames[k + 1].id, s.flags)
  {
    assert StackOk(p, s.flags, s.threads[t]);
    assert WaitsAt(p, s.flags, s.threads[t].frames, k);
    var f := s.threads[t].frames[k];
    CallsInTurn(p, s.flags, f, s.threads[t].frames[k + 1].id);
  }

  lemma CallsInTurn(p: Program, flags: map<Id, int>, f: Frame, callee: Id)
    requires f.id in p && Waits(p, flags, f, callee)
    ensures CalledInTurn(p[f.id], f.pc.n, callee, flags)
  {
    hide Declares;
    match p[f.id]
    case Pass(deps) =>
    case GroupPass(group, def, deps) =>
      assert AllDone(Calls(p[f.id]), f.pc.n - 1, flags);
      MembersInTurn(group, def, deps, Calls(p[f.id]), f.pc.n, callee, flags);
    case Group(q) =>
  }

  ghost predicate AllDone(calls: seq<Id>, n: nat, flags: map<Id, int>) {
    n <= |calls| && forall i :: 0 <= i < n ==> calls[i] in flags && flags[calls[i]] == 2
  }

  lemma MembersInTurn(group: Id, def: bool, deps: seq<Id>, calls: seq<Id>, n: nat, callee: Id, flags: map<Id, int>)
    requires calls == (if def then [] else [group]) + deps && 0 < n <= |calls| && callee == calls[n - 1] && AllDone(calls, n - 1, flags)
    ensures CalledInTurn(GroupPass(group, def, deps), n, callee, flags)
  {
    if def {
      assert calls == deps;
    } else {
      forall i | 0 <= i < n - 2 ensures deps[i] in flags && flags[deps[i]] == 2 {
        assert deps[i] == calls[i + 1];
      }
      assert n > 1 ==> calls[0] == group && deps[n - 2] == calls[n - 1];
    }
  }

  // ---------------------------------------------------------------- no deadlock without a cycle

  /** Everything in `rank` ranks above all that it calls, and what it calls is there too. */
  ghost predicate Ranked(p: Program, rank: map<Id, nat>) {
    rank.Keys <= p.Keys && forall id :: id in rank ==> forall d :: Declares(p[id], d) ==> d in rank && rank[d] < rank[id]
  }

  /** The threads have to do with `ids` only. */
  ghost predicate Confined(s: State, ids: set<Id>) {
    forall t :: 0 <= t < |s.threads| ==> ThreadConfined(s.threads[t], ids)
  }

  ghost predicate ThreadConfined(th: Thread, ids: set<Id>) {
    (forall k :: 0 <= k < |th.frames| ==> th.frames[k].id in ids) && forall id :: id in th.todo ==> id in ids
  }

  /** Whatever is declared by one of `ids` is one of them. */
  ghost predicate ClosedIds(p: Program, ids: set<Id>) {
    forall id, d :: id in ids && id in p && Declares(p[id], d) ==> d in ids
  }

  lemma RankedClosed(p: Program, rank: map<Id, nat>)
    requires Ranked(p, rank)
    ensures ClosedIds(p, rank.Keys)
  {
  }

  lemma ConfinedKept(p: Program, s: State, ids: set<Id>, t: nat)
    requires Inv(p, s) && ClosedIds(p, ids) && Confined(s, ids) && t < |s.threads|
    ensures Typed(p, s) && Confined(Step(p, s, t), ids)
  {
    assert Typed(p, s) && StackOk(p, s.flags, s.threads[t]) && ThreadConfined(s.threads[t], ids);
    hide Inv, StackOk, Confined, CallsDone;
    var s' := Step(p, s, t);
    forall u | 0 <= u < |s'.threads| ensures ThreadConfined(s'.threads[u], ids) {
      if u == t {
        ThreadConfinedKept(p, s, ids, t);
      } else {
        ConfinedAt(s, ids, u);
      }
    }
    ConfinedAll(s', ids);
  }

  lemma ConfinedAt(s: State, ids: set<Id>, t: nat)
    requires Confined(s, ids) && t < |s.threads|
    ensures ThreadConfined(s.threads[t], ids)
  {
  }

  lemma ConfinedAll(s: State, ids: set<Id>)
    requires forall t :: 0 <= t < |s.threads| ==> ThreadConfined(s.threads[t], ids)
    ensures Confined(s, ids)
  {
  }

  lemma ThreadConfinedKept(p: Program, s: State, ids: set<Id>, t: nat)
    requires Typed(p, s) && ClosedIds(p, ids) && t < |s.threads| && ThreadConfined(s.threads[t], ids)
    ensures |Step(p, s, t).threads| == |s.threads| && ThreadConfined(Step(p, s, t).threads[t], ids)
  {
    hide Calls, Declares;
    assert ThreadTyped(p, s.threads[t]);
    var th := s.threads[t];
    if th.frames != [] && Top(th).pc.Inside? && Top(th).pc.n < |Calls(p[Top(th).id])| {
      assert Calls(p[Top(th).id])[Top(th).pc.n] in Calls(p[Top(th).id]);
    }
  }

  predicate AtRest(th: Thread) {
    th.frames == [] && th.todo == []
  }

  /** The thread waits for another one to finish a body. */
  predicate Blocked(s: State, th: Thread) {
    th.frames != [] && Top(th).pc.Spinning? && Top(th).id in s.flags && s.flags[Top(th).id] != 2
  }

  lemma {:induction false} DeeperRanksLower(p: Program, flags: map<Id, int>, th: Thread, rank: map<Id, nat>, k: nat)
    requires StackOk(p, flags, th) && Ranked(p, rank) && ThreadConfined(th, rank.Keys) && k < |th.frames| - 1
    ensures th.frames[k].id in rank && Top(th).id in rank && rank[Top(th).id] < rank[th.frames[k].id]
    decreases |th.frames| - k
  {
    var f := th.frames[k];
    assert WaitsAt(p, flags, th.frames, k);
    assert th.frames[k + 1].id in Calls(p[f.id]);
    if k + 1 < |th.frames| - 1 {
      DeeperRanksLower(p, flags, th, rank, k + 1);
    }
  }

  /** Who runs the body that thread `t` waits for. */
  lemma OwnerOf(p: Program, s: State, t: nat) returns (o: nat, k: nat)
    requires Inv(p, s) && t < |s.threads| && Blocked(s, s.threads[t])
    ensures o < |s.threads| && k < |s.threads[o].frames| && s.threads[o].frames[k].id == Top(s.threads[t]).id
    ensures IsRunning(s.threads[o].frames[k]) && StackOk(p, s.flags, s.threads[o])
  {
    var id := Top(s.threads[t]).id;
    assert StackOk(p, s.flags, s.threads[t]) && FlagOk(s, id);
    o := s.owner[id];
    k :| 0 <= k < |s.threads[o].frames| && s.threads[o].frames[k].id == id && IsRunning(s.threads[o].frames[k]);
  }

  /** If a thread is not at rest, some thread is neither at rest nor blocked. */
  lemma {:induction false} NoDeadlock(p: Program, s: State, rank: map<Id, nat>, t: nat) returns (u: nat)
    requires Inv(p, s) && Ranked(p, rank) && Confined(s, rank.Keys) && t < |s.threads| && !AtRest(s.threads[t])
    ensures u < |s.threads| && !AtRest(s.threads[u]) && !Blocked(s, s.threads[u])
    decreases if s.threads[t].frames != [] && Top(s.threads[t]).id in rank then rank[Top(s.threads[t]).id] else 0
  {
    hide Calls, CallsDone, Waits, Owns, InOrder;
    var th := s.threads[t];
    if !Blocked(s, th) {
      u := t;
    } else {
      var o, k := OwnerOf(p, s, t);
      hide Inv;
      ConfinedAt(s, rank.Keys, t);
      ConfinedAt(s, rank.Keys, o);
      if Blocked(s, s.threads[o]) {
        DeeperRanksLower(p, s.flags, s.threads[o], rank, k);
        u := NoDeadlock(p, s, rank, o);
      } else {
        u := o;
      }
    }
  }

  // ---------------------------------------------------------------- progress

  function FrameWork(p: Program, f: Frame): int {
    match f.pc
    case Entering => 2
    case Spinning => 1
    case Inside(n) => if f.id in p then 3 * (|Calls(p[f.id])| - n) + 2 else 0
    case Publishing => 1
  }

  function StackWork(p: Program, fs: seq<Frame>): int {
    if fs == [] then 0 else StackWork(p, fs[..|fs| - 1]) + FrameWork(p, fs[|fs| - 1])
  }

  /** The steps thread `th` has still to take if it wins no more flags. */
  function ThreadWork(p: Program, th: Thread): int {
    3 * |th.todo| + StackWork(p, th.frames)
  }

  function Work(p: Program, ths: seq<Thread>): int {
    if ths == [] then 0 else Work(p, ths[..|ths| - 1]) + ThreadWork(p, ths[|ths| - 1])
  }

  lemma {:induction false} WorkPut(p: Program, ths: seq<Thread>, t: nat, th: Thread)
    requires t < |ths|
    ensures Work(p, ths[t := th]) == Work(p, ths) - ThreadWork(p, ths[t]) + ThreadWork(p, th)
  {
    var n := |ths| - 1;
    if t == n {
      assert ths[t := th][..n] == ths[..n];
    } else {
      WorkPut(p, ths[..n], t, th);
      assert ths[t := th][..n] == ths[..n][t := th];
    }
  }

  lemma {:induction false} StackWorkNat(p: Program, flags: map<Id, int>, fs: seq<Frame>)
    requires forall k :: 0 <= k < |fs| ==> fs[k].id in p && (fs[k].pc.Inside? ==> fs[k].pc.n <= |Calls(p[fs[k].id])|)
    ensures StackWork(p, fs) >= 0
  {
    if fs != [] {
      StackWorkNat(p, flags, fs[..|fs| - 1]);
    }
  }

  lemma {:induction false} WorkNat(p: Program, s: State, n: nat)
    requires Inv(p, s) && n <= |s.threads|
    ensures Work(p, s.threads[..n]) >= 0
  {
    if n != 0 {
      var th := s.threads[n - 1];
      assert s.threads[..n][..n - 1] == s.threads[..n - 1];
      WorkNat(p, s, n - 1);
      assert StackOk(p, s.flags, th) && ThreadTyped(p, th);
      forall k | 0 <= k < |th.frames| ensures th.frames[k].id in p && (th.frames[k].pc.Inside? ==> th.frames[k].pc.n <= |Calls(p[th.frames[k].id])|) {
        assert k < |th.frames| - 1 ==> WaitsAt(p, s.flags, th.frames, k);
      }
      StackWorkNat(p, s.flags, th.frames);
    }
  }

  function Unstarted(s: State): set<Id> {
    set id | id in s.flags && s.flags[id] == 0
  }

  lemma TopWork(p: Program, th: Thread, pc: Pc, callee: Id)
    requires th.frames != []
    ensures ThreadWork(p, At(th, pc)) == ThreadWork(p, th) - FrameWork(p, Top(th)) + FrameWork(p, Top(th).(pc := pc))
    ensures ThreadWork(p, Pop(th)) == ThreadWork(p, th) - FrameWork(p, Top(th))
    ensures ThreadWork(p, Push(At(th, pc), callee)) == ThreadWork(p, At(th, pc)) + 2
  {
    var n := |th.frames| - 1;
    assert At(th, pc).frames[..n] == th.frames[..n];
    assert Push(At(th, pc), callee).frames[..n + 1] == At(th, pc).frames;
  }

  /** What is left after a step by thread `t` that leaves it as `th`. */
  ghost predicate Progress(p: Program, s: State, s': State) {
    Unstarted(s') < Unstarted(s) || (Unstarted(s') == Unstarted(s) && Work(p, s'.threads) == Work(p, s.threads) - 1)
  }

  lemma CallWork(p: Program, th: Thread)
    requires th.frames == [] && th.todo != []
    ensures ThreadWork(p, Push(th, th.todo[0]).(todo := th.todo[1..])) == ThreadWork(p, th) - 1
  {
    assert (th.frames + [Frame(th.todo[0], Entering)])[..0] == [];
  }

  lemma CallProgress(p: Program, s: State, t: nat)
    requires Inv(p, s) && t < |s.threads| && s.threads[t].frames == [] && s.threads[t].todo != []
    ensures Progress(p, s, Step(p, s, t))
  {
    InvAt(p, s, t);
    hide Inv, StackOk, Owns, FlagOk, InOrder, WellFormed;
    var th := s.threads[t];
    var th' := Push(th, th.todo[0]).(todo := th.todo[1..]);
    assert Step(p, s, t) == Put(s, t, th');
    hide Step, Push, Work, ThreadWork, Put, Progress;
    CallWork(p, th);
    ProgressOf(p, s, t, th');
  }

  lemma EnterProgress(p: Program, s: State, t: nat)
    requires Inv(p, s) && t < |s.threads| && s.threads[t].frames != [] && Top(s.threads[t]).pc.Entering?
    ensures Progress(p, s, Step(p, s, t))
  {
    InvAt(p, s, t);
    hide Inv, InOrder, WellFormed;
    var th, id := s.threads[t], Top(s.threads[t]).id;
    assert FlagOk(s, id);
    hide Inv, FlagOk;
    if s.flags[id] == 0 {
      var s' := Step(p, s, t);
      assert id in Unstarted(s) && id !in Unstarted(s');
      assert forall x :: x in Unstarted(s') ==> x in Unstarted(s);
    } else {
      WorkPut(p, s.threads, t, At(th, Spinning));
      TopWork(p, th, Spinning, 0);
    }
  }

  lemma SpinProgress(p: Program, s: State, t: nat)
    requires Inv(p, s) && t < |s.threads| && s.threads[t].frames != [] && Top(s.threads[t]).pc.Spinning?
    requires s.flags[Top(s.threads[t]).id] == 2
    ensures Progress(p, s, Step(p, s, t))
  {
    InvAt(p, s, t);
    hide Inv, InOrder, WellFormed;
    hide Inv;
    WorkPut(p, s.threads, t, Pop(s.threads[t]));
    TopWork(p, s.threads[t], Spinning, 0);
  }

  lemma NestedWork(p: Program, th: Thread, n: nat, callee: Id)
    requires th.frames != [] && Top(th).pc == Inside(n) && Top(th).id in p
    ensures ThreadWork(p, Push(At(th, Inside(n + 1)), callee)) == ThreadWork(p, th) - 1
  {
    hide At, Push, ThreadWork;
    TopWork(p, th, Inside(n + 1), callee);
  }

  lemma ProgressOf(p: Program, s: State, t: nat, th: Thread)
    requires t < |s.threads| && ThreadWork(p, th) == ThreadWork(p, s.threads[t]) - 1
    ensures Progress(p, s, Put(s, t, th))
  {
    WorkPut(p, s.threads, t, th);
  }

  lemma NestedProgress(p: Program, s: State, t: nat)
    requires Inv(p, s) && t < |s.threads| && s.threads[t].frames != [] && Top(s.threads[t]).pc.Inside?
    requires Top(s.threads[t]).pc.n < |Calls(p[Top(s.threads[t]).id])|
    ensures Progress(p, s, Step(p, s, t))
  {
    hide Calls, Declares, StackOk, Owns, FlagOk, CallsDone;
    InvAt(p, s, t);
    hide Inv, InOrder, WellFormed;
    var th, n := s.threads[t], Top(s.threads[t]).pc.n;
    var callee := Calls(p[Top(th).id])[n];
    var th' := Push(At(th, Inside(n + 1)), callee);
    assert Step(p, s, t) == Put(s, t, th') && Top(th).id in p;
    hide Inv, Step, At, Push, Work, ThreadWork, Put, Progress;
    NestedWork(p, th, n, callee);
    ProgressOf(p, s, t, th');
  }

  lemma RegisterWork(p: Program, th: Thread)
    requires th.frames != [] && Top(th).id in p && Top(th).pc == Inside(|Calls(p[Top(th).id])|)
    ensures ThreadWork(p, At(th, Publishing)) == ThreadWork(p, th) - 1
  {
    hide At, ThreadWork, Calls;
    TopWork(p, th, Publishing, 0);
  }

  lemma RegisterProgress(p: Program, s: State, t: nat)
    requires Inv(p, s) && t < |s.threads| && s.threads[t].frames != [] && Top(s.threads[t]).pc.Inside?
    requires Top(s.threads[t]).pc.n >= |Calls(p[Top(s.threads[t]).id])|
    ensures Progress(p, s, Step(p, s, t))
  {
    hide Calls, StackOk, Owns, FlagOk;
    InvAt(p, s, t);
    hide Inv, InOrder, WellFormed, Typed;
    var th := s.threads[t];
    RegisterWork(p, th);
    assert Step(p, s, t) == Put(s, t, At(th, Publishing)).(registered := s.registered + [Top(th).id]);
    hide At, ThreadWork, TopOk, Step;
    WorkPut(p, s.threads, t, At(th, Publishing));
  }

  lemma PublishProgress(p: Program, s: State, t: nat)
    requires Inv(p, s) && t < |s.threads| && s.threads[t].frames != [] && Top(s.threads[t]).pc.Publishing?
    ensures Progress(p, s, Step(p, s, t))
  {
    InvAt(p, s, t);
    hide Inv, InOrder, WellFormed;
    assert Owns(s, t) && FlagOk(s, Top(s.threads[t]).id);
    RunningTop(s, t, Top(s.threads[t]).id);
    var th, s' := s.threads[t], Step(p, s, t);
    assert s'.flags == s.flags[Top(th).id := 2] && s'.threads == s.threads[t := Pop(th)];
    hide Inv, FlagOk, Owns, Step, Pop, Work, ThreadWork;
    WorkPut(p, s.threads, t, Pop(th));
    TopWork(p, th, Publishing, 0);
    assert Unstarted(s') == Unstarted(s);
  }

  /** A thread that is neither at rest nor blocked starts a body, or takes one unit from the work that is left. */
  lemma StepProgress(p: Program, s: State, t: nat)
    requires Inv(p, s) && t < |s.threads| && !AtRest(s.threads[t]) && !Blocked(s, s.threads[t])
    ensures Typed(p, s) && Progress(p, s, Step(p, s, t))
  {
    SameThreads(p, s, t);
    assert Typed(p, s);
    hide Inv, Step, Progress;
    var th := s.threads[t];
    if th.frames == [] {
      CallProgress(p, s, t);
    } else {
      match Top(th).pc
      case Entering => EnterProgress(p, s, t);
      case Spinning => SpinProgress(p, s, t);
      case Inside(n) => if n < |Calls(p[Top(th).id])| { NestedProgress(p, s, t); } else { RegisterProgress(p, s, t); }
      case Publishing => PublishProgress(p, s, t);
    }
  }

  ghost predicate AllAtRest(s: State) {
    forall t :: 0 <= t < |s.threads| ==> AtRest(s.threads[t])
  }

  /** Which thread takes the n-th step, for ever: every thread takes steps again and again. */
  ghost predicate Fair(f: nat -> nat, threads: nat) {
    && (forall n :: f(n) < threads)
    && (forall t: nat, n: nat :: t < threads ==> Again(f, t, n))
  }

  ghost predicate Again(f: nat -> nat, t: nat, n: nat) {
    exists m: nat :: m >= n && f(m) == t
  }

  /** The steps from the a-th to before the b-th. */
  function Segment(f: nat -> nat, a: nat, b: nat): seq<nat>
    requires a <= b
  {
    seq(b - a, (i: nat) => f(a + i))
  }

  lemma SegmentFits(f: nat -> nat, threads: nat, a: nat, b: nat)
    requires Fair(f, threads) && a <= b
    ensures ScheduleFor(Segment(f, a, b), threads)
  {
  }

  /** As long as a thread can go on, some step before and including its next one makes progress. */
  lemma {:induction false} UntilProgress(p: Program, s: State, f: nat -> nat, a: nat, m: nat) returns (b: nat)
    requires Inv(p, s) && Fair(f, |s.threads|) && a <= m
    requires !AtRest(s.threads[f(m)]) && !Blocked(s, s.threads[f(m)])
    ensures a < b && ScheduleFor(Segment(f, a, b), |s.threads|) && Progress(p, s, Run(p, s, Segment(f, a, b)))
    decreases m - a
  {
    hide Inv, Step, Progress;
    var t := f(a);
    Unfolded(p, s, t);
    StepKeeps(p, s, t);
    if AtRest(s.threads[t]) || Blocked(s, s.threads[t]) {
      b := UntilProgress(p, s, f, a + 1, m);
    } else {
      b := a + 1;
      StepProgress(p, s, t);
      SameThreads(p, s, t);
      assert Segment(f, a + 1, a + 1) == [];
    }
    SegmentFits(f, |s.threads|, a, b);
    assert Segment(f, a, b)[0] == t && Segment(f, a, b)[1..] == Segment(f, a + 1, b);
  }

  /** Without a cycle among what is asked for, every fair schedule brings every thread to rest. */
  lemma {:induction false} FairRunEnds(p: Program, s: State, rank: map<Id, nat>, f: nat -> nat, a: nat) returns (b: nat)
    requires Inv(p, s) && Ranked(p, rank) && Confined(s, rank.Keys) && Fair(f, |s.threads|)
    ensures a <= b && ScheduleFor(Segment(f, a, b), |s.threads|) && AllAtRest(Run(p, s, Segment(f, a, b)))
    decreases Unstarted(s), Work(p, s.threads)
  {
    hide Inv, Step, Ranked, Work, Confined, AtRest;
    if t :| 0 <= t < |s.threads| && !AtRest(s.threads[t]) {
      var u := NoDeadlock(p, s, rank, t);
      assert Again(f, u, a);
      var m: nat :| m >= a && f(m) == u;
      var c := UntilProgress(p, s, f, a, m);
      var s' := Run(p, s, Segment(f, a, c));
      WorkNat(p, s, |s.threads|);
      assert s.threads[..|s.threads|] == s.threads;
      RankedClosed(p, rank);
      ConfinedAlways(p, s, rank.Keys, Segment(f, a, c));
      hide Run;
      b := FairRunEnds(p, s', rank, f, c);
      assert Segment(f, a, b) == Segment(f, a, c) + Segment(f, c, b);
      RunMore(p, s, Segment(f, a, c), Segment(f, c, b));
    } else {
      b := a;
      assert Segment(f, a, b) == [];
    }
    SegmentFits(f, |s.threads|, a, b);
  }

  lemma {:induction false} ConfinedAlways(p: Program, s: State, ids: set<Id>, schedule: seq<nat>)
    requires Inv(p, s) && ClosedIds(p, ids) && Confined(s, ids) && ScheduleFor(schedule, |s.threads|)
    ensures Confined(Run(p, s, schedule), ids)
    decreases |schedule|
  {
    hide Inv, Step, ClosedIds, Confined;
    if schedule != [] {
      ConfinedKept(p, s, ids, schedule[0]);
      StepKeeps(p, s, schedule[0]);
      SameThreads(p, s, schedule[0]);
      ConfinedAlways(p, Step(p, s, schedule[0]), ids, schedule[1..]);
    }
  }

  /** The threads take turns. */
  function InTurn(threads: nat): nat -> nat {
    n => if threads == 0 then 0 else n % threads
  }

  lemma InTurnIsFair(threads: nat)
    requires threads > 0
    ensures Fair(InTurn(threads), threads)
  {
    forall t: nat, n: nat | t < threads ensures Again(InTurn(threads), t, n) {
      Arithmetic.MulAtMost(1, threads, n);
      var m: nat := n * threads + t;
      Arithmetic.DivisionUnique(m, threads, n, t);
      assert m >= n && InTurn(threads)(m) == t;
    }
  }

  /** Without a cycle among what is asked for, every state can be run to the end, where every thread is at rest. */
  lemma RunsToEnd(p: Program, s: State, rank: map<Id, nat>) returns (schedule: seq<nat>)
    requires Inv(p, s) && Ranked(p, rank) && Confined(s, rank.Keys)
    ensures ScheduleFor(schedule, |s.threads|) && AllAtRest(Run(p, s, schedule))
  {
    hide Inv, Ranked, Confined;
    if s.threads == [] {
      schedule := [];
    } else {
      InTurnIsFair(|s.threads|);
      var b := FairRunEnds(p, s, rank, InTurn(|s.threads|), 0);
      schedule := Segment(InTurn(|s.threads|), 0, b);
    }
  }

  /** What a thread has been asked to initialize is still to do, under way, or done. */
  predicate Asked(th: Thread, id: Id) {
    id in th.todo || id in th.returned || (th.frames != [] && th.frames[0].id == id)
  }

  lemma AskedKept(p: Program, s: State, t: nat, u: nat, id: Id)
    requires Inv(p, s) && t < |s.threads| && u < |s.threads| && Asked(s.threads[t], id)
    ensures Typed(p, s) && Asked(Step(p, s, u).threads[t], id)
  {
    hide StackOk, Owns, FlagOk, InOrder;
  }

  lemma {:induction false} AskedAlways(p: Program, s: State, schedule: seq<nat>, t: nat, id: Id)
    requires Inv(p, s) && ScheduleFor(schedule, |s.threads|) && t < |s.threads| && Asked(s.threads[t], id)
    ensures Asked(Run(p, s, schedule).threads[t], id)
    decreases |schedule|
  {
    hide Inv, Step, Asked;
    if schedule != [] {
      AskedKept(p, s, t, schedule[0], id);
      StepKeeps(p, s, schedule[0]);
      SameThreads(p, s, schedule[0]);
      AskedAlways(p, Step(p, s, schedule[0]), schedule[1..], t, id);
    }
  }

  /** When a run has brought a thread to rest, all that the thread was to initialize is registered. */
  lemma EndsRegistered(p: Program, s: State, schedule: seq<nat>, t: nat, id: Id)
    requires Inv(p, s) && ScheduleFor(schedule, |s.threads|) && t < |s.threads| && id in s.threads[t].todo
    requires AtRest(Run(p, s, schedule).threads[t])
    ensures id in Run(p, s, schedule).registered
  {
    AskedAlways(p, s, schedule, t, id);
    ReturnedRegistered(p, Run(p, s, schedule), t, id);
  }

  // ---------------------------------------------------------------- cycles

  /** Each of `c` depends on one of `c`. */
  ghost predicate Cyclic(p: Program, c: set<Id>) {
    forall id :: id in c && id in p ==> exists d :: Declares(p[id], d) && d in c
  }

  lemma RegisteredEarlier(p: Program, registered: seq<Id>, j: nat, d: Id) returns (i: nat)
    requires InOrder(p, registered) && j < |registered| && registered[j] in p && Declares(p[registered[j]], d)
    ensures i < j && registered[i] == d
  {
    assert d in registered[..j];
    i :| 0 <= i < j && registered[..j][i] == d;
  }

  lemma RegisteredKnown(p: Program, registered: seq<Id>, j: nat)
    requires InOrder(p, registered) && j < |registered|
    ensures registered[j] in p
  {
  }

  /** What is on a cycle of dependencies is never registered, so that nobody ever returns from it. */
  lemma {:induction false} CycleNeverRegistered(p: Program, registered: seq<Id>, c: set<Id>, j: nat)
    requires InOrder(p, registered) && Cyclic(p, c) && j < |registered|
    ensures registered[j] !in c
    decreases j
  {
    hide InOrder;
    RegisteredKnown(p, registered, j);
    if registered[j] in c {
      var d :| Declares(p[registered[j]], d) && d in c;
      var i := RegisteredEarlier(p, registered, j, d);
      CycleNeverRegistered(p, registered, c, i);
    }
  }

  lemma CycleNowhere(p: Program, registered: seq<Id>, c: set<Id>, id: Id)
    requires InOrder(p, registered) && Cyclic(p, c) && id in c
    ensures id !in registered
  {
    hide InOrder, Cyclic;
    forall j | 0 <= j < |registered| ensures registered[j] !in c {
      CycleNeverRegistered(p, registered, c, j);
    }
  }

  /** A group whose default pass is declared as one of its other members is never initialized. */
  lemma DefaultMustBeDeclared(p: Program, s: State, t: nat, g: Id, q: Id, deps: seq<Id>)
    requires Inv(p, s) && t < |s.threads| && g in p && q in p && p[g] == Group(q) && p[q] == GroupPass(g, false, deps)
    ensures g !in s.threads[t].returned && q !in s.threads[t].returned
  {
    var c := {g, q};
    assert Calls(p[g])[0] == q && Calls(p[q])[0] == g;
    assert q in Calls(p[g]) && g in Calls(p[q]);
    forall id | id in c ensures id !in s.threads[t].returned {
      CycleNowhere(p, s.registered, c, id);
      if id in s.threads[t].returned {
        ReturnedRegistered(p, s, t, id);
      }
    }
  }

  // ---------------------------------------------------------------- when everything can come to rest

  ghost predicate CallPath(p: Program, q: seq<Id>) {
    q != [] && forall i: nat :: i < |q| - 1 ==> CallAt(p, q, i)
  }

  ghost predicate CallAt(p: Program, q: seq<Id>, i: nat)
    requires i < |q| - 1
  {
    q[i] in p && Declares(p[q[i]], q[i + 1])
  }

  /** Going from declaration to declaration, `q` comes back to where it has been. */
  ghost predicate RunsIntoCycle(p: Program, q: seq<Id>) {
    CallPath(p, q) && exists j :: 0 <= j < |q| - 1 && q[j] == q[|q| - 1]
  }

  ghost predicate LeadsToCycle(p: Program, id: Id) {
    exists q :: RunsIntoCycle(p, q) && q[0] == id
  }

  /** Who leads to a cycle is in a set each member of which depends on another. */
  lemma CycleSet(p: Program, q: seq<Id>) returns (c: set<Id>)
    requires RunsIntoCycle(p, q)
    ensures Cyclic(p, c) && q[0] in c
  {
    c := set id | id in q;
    var j :| 0 <= j < |q| - 1 && q[j] == q[|q| - 1];
    forall id | id in c && id in p ensures exists d :: Declares(p[id], d) && d in c {
      var i: nat :| i < |q| && q[i] == id;
      var k := if i < |q| - 1 then i else j;
      assert CallAt(p, q, k);
      assert q[k + 1] in q;
    }
  }

  lemma NextInCycle(p: Program, c: set<Id>, id: Id) returns (d: Id)
    requires Cyclic(p, c) && id in c && id in p
    ensures Declares(p[id], d) && d in c
  {
    d :| Declares(p[id], d) && d in c;
  }

  /** And who is in such a set leads to a cycle: going on inside it, one comes back somewhere. */
  lemma {:induction false} CycleFrom(p: Program, c: set<Id>, q: seq<Id>) returns (r: seq<Id>)
    requires Cyclic(p, c) && c <= p.Keys && CallPath(p, q)
    requires (forall i :: 0 <= i < |q| ==> q[i] in c) && forall i, j :: 0 <= i < j < |q| ==> q[i] != q[j]
    ensures RunsIntoCycle(p, r) && r[0] == q[0]
    decreases |c| - |q|
  {
    hide Cyclic, Calls;
    var d := NextInCycle(p, c, q[|q| - 1]);
    r := q + [d];
    forall i: nat | i < |r| - 1 ensures CallAt(p, r, i) {
      if i < |q| - 1 {
        assert CallAt(p, q, i);
      }
    }
    if d in q {
      var j :| 0 <= j < |q| && q[j] == d;
      assert r[j] == r[|r| - 1];
    } else {
      NoMoreThan(r, c);
      r := CycleFrom(p, c, r);
    }
  }

  lemma {:induction false} NoMoreThan(q: seq<Id>, c: set<Id>)
    requires (forall i :: 0 <= i < |q| ==> q[i] in c) && forall i, j :: 0 <= i < j < |q| ==> q[i] != q[j]
    ensures |q| <= |c|
    decreases |q|
  {
    if q != [] {
      var n := |q| - 1;
      NoMoreThan(q[..n], c - {q[n]});
    }
  }

  lemma InCycle(p: Program, c: set<Id>, id: Id)
    requires Cyclic(p, c) && c <= p.Keys && id in c
    ensures LeadsToCycle(p, id)
  {
    hide Cyclic;
    var r := CycleFrom(p, c, [id]);
  }

  /** What does not lead to a cycle calls nothing that does. */
  lemma CycleAhead(p: Program, id: Id, d: Id)
    requires id in p && Declares(p[id], d) && LeadsToCycle(p, d)
    ensures LeadsToCycle(p, id)
  {
    var q :| RunsIntoCycle(p, q) && q[0] == d;
    PathAhead(p, id, q);
  }

  lemma PathAhead(p: Program, id: Id, q: seq<Id>)
    requires RunsIntoCycle(p, q) && id in p && Declares(p[id], q[0])
    ensures RunsIntoCycle(p, [id] + q)
  {
    hide Calls;
    var r := [id] + q;
    var j: nat :| j < |q| - 1 && q[j] == q[|q| - 1];
    assert r[j + 1] == r[|r| - 1];
    forall i: nat | i < |r| - 1 ensures CallAt(p, r, i) {
      if i > 0 {
        assert CallAt(p, q, i - 1);
      }
    }
  }

  lemma AcyclicCalls(p: Program, id: Id, d: Id)
    requires WellFormed(p) && id in Acyclic(p) && Declares(p[id], d)
    ensures d in Acyclic(p)
  {
    hide LeadsToCycle;
    if LeadsToCycle(p, d) {
      CycleAhead(p, id, d);
    }
  }

  ghost function Acyclic(p: Program): set<Id> {
    set id | id in p && !LeadsToCycle(p, id)
  }

  lemma RankedOne(p: Program, rank0: map<Id, nat>, n: nat, id: Id)
    requires Ranked(p, rank0) && id in p && id !in rank0 && forall x :: x in rank0 ==> rank0[x] < n
    requires forall d :: Declares(p[id], d) ==> d in rank0
    ensures Ranked(p, rank0[id := n])
  {
    hide Declares;
  }

  lemma CalleesRanked(p: Program, done: set<Id>, rest: set<Id>, id: Id)
    requires WellFormed(p) && done + rest == Acyclic(p) && id in rest && !CallsInside(p, id, rest)
    ensures forall d :: Declares(p[id], d) ==> d in done
  {
    hide Declares, LeadsToCycle;
    forall d | Declares(p[id], d) ensures d in done {
      AcyclicCalls(p, id, d);
    }
  }

  /** All that leads to no cycle can be ranked, from below. */
  lemma {:induction false} RankAll(p: Program, rank0: map<Id, nat>, n: nat, rest: set<Id>) returns (rank: map<Id, nat>)
    requires WellFormed(p) && Ranked(p, rank0) && rank0.Keys + rest == Acyclic(p) && rank0.Keys !! rest
    requires forall id :: id in rank0 ==> rank0[id] < n
    ensures Ranked(p, rank) && rank.Keys == Acyclic(p)
    decreases rest
  {
    hide LeadsToCycle, Cyclic, Calls, Declares, CallsInside, Ranked, WellFormed;
    if rest == {} {
      rank := rank0;
    } else if id :| id in rest && !CallsInside(p, id, rest) {
      CalleesRanked(p, rank0.Keys, rest, id);
      RankedOne(p, rank0, n, id);
      rank := RankAll(p, rank0[id := n], n + 1, rest - {id});
    } else {
      var id :| id in rest;
      NoneOnTop(p, rest);
      InCycle(p, rest, id);
      assert false;
    }
  }

  lemma NoneOnTop(p: Program, c: set<Id>)
    requires forall id :: id in c ==> CallsInside(p, id, c)
    ensures Cyclic(p, c)
  {
  }

  predicate CallsInside(p: Program, id: Id, c: set<Id>) {
    id in p && exists d :: Declares(p[id], d) && d in c
  }

  predicate TodosKnown(p: Program, todos: seq<seq<Id>>) {
    forall i :: 0 <= i < |todos| ==> forall id :: id in todos[i] ==> id in p
  }

  ghost predicate AsksForCycle(p: Program, todos: seq<seq<Id>>) {
    exists i, id :: 0 <= i < |todos| && id in todos[i] && LeadsToCycle(p, id)
  }

  ghost predicate EndsBy(p: Program, todos: seq<seq<Id>>, schedule: seq<nat>)
    requires WellFormed(p) && TodosKnown(p, todos)
  {
    StartKeeps(p, todos);
    ScheduleFor(schedule, |todos|) && AllAtRest(Run(p, Start(p, todos), schedule))
  }

  lemma RankedStart(p: Program, todos: seq<seq<Id>>) returns (rank: map<Id, nat>)
    requires WellFormed(p) && TodosKnown(p, todos) && !AsksForCycle(p, todos)
    ensures Inv(p, Start(p, todos)) && Ranked(p, rank) && Confined(Start(p, todos), rank.Keys)
  {
    StartKeeps(p, todos);
    hide LeadsToCycle;
    rank := RankAll(p, map[], 0, Acyclic(p));
  }

  /** If nothing that is asked for leads to a cycle, every fair schedule brings every thread to rest. */
  lemma FairSchedulesEnd(p: Program, todos: seq<seq<Id>>, f: nat -> nat) returns (n: nat)
    requires WellFormed(p) && TodosKnown(p, todos) && !AsksForCycle(p, todos) && Fair(f, |todos|)
    ensures EndsBy(p, todos, Segment(f, 0, n))
  {
    var rank := RankedStart(p, todos);
    n := FairRunEnds(p, Start(p, todos), rank, f, 0);
  }

  /** Some schedule brings every thread to rest if and only if nothing that is asked for leads to a cycle. */
  lemma EndsExactly(p: Program, todos: seq<seq<Id>>)
    requires WellFormed(p) && TodosKnown(p, todos)
    ensures (exists schedule :: EndsBy(p, todos, schedule)) <==> !AsksForCycle(p, todos)
  {
    if !AsksForCycle(p, todos) {
      var rank := RankedStart(p, todos);
      var schedule := RunsToEnd(p, Start(p, todos), rank);
      assert EndsBy(p, todos, schedule);
    } else if schedule :| EndsBy(p, todos, schedule) {
      var i, id :| 0 <= i < |todos| && id in todos[i] && LeadsToCycle(p, id);
      EndsNot(p, todos, schedule, i, id);
    }
  }

  lemma EndsNot(p: Program, todos: seq<seq<Id>>, schedule: seq<nat>, i: nat, id: Id)
    requires WellFormed(p) && TodosKnown(p, todos) && ScheduleFor(schedule, |todos|)
    requires i < |todos| && id in todos[i] && LeadsToCycle(p, id)
    ensures !EndsBy(p, todos, schedule)
  {
    StartKeeps(p, todos);
    var s := Start(p, todos);
    if AllAtRest(Run(p, s, schedule)) {
      EndsRegistered(p, s, schedule, i, id);
      var q :| RunsIntoCycle(p, q) && q[0] == id;
      var c := CycleSet(p, q);
      CycleNowhere(p, Run(p, s, schedule).registered, c, id);
    }
  }

  /** A group and its default pass, which is not declared as the default: asking for the group never ends. */
  function Undeclared(): Program {
    map[0 := Group(1), 1 := GroupPass(0, false, [])]
  }

  lemma UndeclaredNeverEnds(schedule: seq<nat>)
    ensures WellFormed(Undeclared()) && TodosKnown(Undeclared(), [[0]]) && !EndsBy(Undeclared(), [[0]], schedule)
  {
    var p, q := Undeclared(), [0, 1, 0];
    assert Calls(p[0])[0] == 1 && Calls(p[1])[0] == 0;
    assert forall i: nat :: i < 2 ==> CallAt(p, q, i);
    assert q[0] == q[|q| - 1];
    assert RunsIntoCycle(p, q) && q[0] == 0;
    assert 0 in [[0]][0];
    if ScheduleFor(schedule, 1) {
      EndsNot(p, [[0]], schedule, 0, 0);
    }
  }

  // ---------------------------------------------------------------- once in a whole run

  /** The k-th step of the run starts the body of `id`. */
  ghost predicate Starts(p: Program, s: State, schedule: seq<nat>, k: nat, id: Id)
    requires Inv(p, s) && ScheduleFor(schedule, |s.threads|) && k < |schedule|
  {
    && id in Run(p, s, schedule[..k]).flags && Run(p, s, schedule[..k]).flags[id] == 0
    && id in Run(p, s, schedule[..k + 1]).flags && Run(p, s, schedule[..k + 1]).flags[id] != 0
  }

  lemma {:induction false} FlagsStay(p: Program, s: State, schedule: seq<nat>, id: Id)
    requires Inv(p, s) && ScheduleFor(schedule, |s.threads|) && id in s.flags
    ensures id in Run(p, s, schedule).flags && s.flags[id] <= Run(p, s, schedule).flags[id]
    decreases |schedule|
  {
    hide Inv, Step;
    if schedule != [] {
      FlagsNeverFall(p, s, schedule[0], id);
      StepKeeps(p, s, schedule[0]);
      SameThreads(p, s, schedule[0]);
      FlagsStay(p, Step(p, s, schedule[0]), schedule[1..], id);
    }
  }

  /** In every run of any number of threads the body of `id` is started at most once. */
  lemma StartsOnce(p: Program, s: State, schedule: seq<nat>, j: nat, k: nat, id: Id)
    requires Inv(p, s) && ScheduleFor(schedule, |s.threads|) && j < k < |schedule|
    requires Starts(p, s, schedule, j, id)
    ensures !Starts(p, s, schedule, k, id)
  {
    hide Inv, Run;
    var a, b := schedule[..j + 1], schedule[j + 1..k];
    assert schedule[..k] == a + b;
    RunMore(p, s, a, b);
    FlagsStay(p, Run(p, s, a), b, id);
    FlagRange(p, Run(p, s, a), id);
  }

  lemma FlagRange(p: Program, s: State, id: Id)
    requires Inv(p, s) && id in s.flags
    ensures 0 <= s.flags[id] <= 2
  {
    assert FlagOk(s, id);
  }

  // ---------------------------------------------------------------- what is initialized at all

  predicate IsAsked(todos: seq<seq<Id>>, id: Id) {
    exists i :: 0 <= i < |todos| && id in todos[i]
  }

  /** From something that is asked for, `q` leads to `id` from declaration to declaration. */
  ghost predicate Leads(p: Program, todos: seq<seq<Id>>, q: seq<Id>, id: Id) {
    CallPath(p, q) && IsAsked(todos, q[0]) && q[|q| - 1] == id
  }

  ghost predicate Needed(p: Program, todos: seq<seq<Id>>, id: Id) {
    exists q :: Leads(p, todos, q, id)
  }

  ghost function AllNeeded(p: Program, todos: seq<seq<Id>>): set<Id> {
    set id | id in p && Needed(p, todos, id)
  }

  lemma AskedNeeded(p: Program, todos: seq<seq<Id>>, id: Id)
    requires IsAsked(todos, id)
    ensures Needed(p, todos, id)
  {
    assert Leads(p, todos, [id], id);
  }

  lemma DeclaredNeeded(p: Program, todos: seq<seq<Id>>, id: Id, d: Id)
    requires Needed(p, todos, id) && id in p && Declares(p[id], d)
    ensures Needed(p, todos, d)
  {
    hide Declares, IsAsked;
    var q :| Leads(p, todos, q, id);
    var r := q + [d];
    forall i: nat | i < |r| - 1 ensures CallAt(p, r, i) {
      if i < |q| - 1 {
        assert CallAt(p, q, i);
      }
    }
    assert Leads(p, todos, r, d);
  }

  lemma NeededClosed(p: Program, todos: seq<seq<Id>>)
    requires WellFormed(p)
    ensures ClosedIds(p, AllNeeded(p, todos))
  {
    hide Needed, Declares;
    forall id, d | id in AllNeeded(p, todos) && id in p && Declares(p[id], d) ensures d in AllNeeded(p, todos) {
      DeclaredNeeded(p, todos, id, d);
    }
  }

  /** Only initializations in `ids` have been started. */
  ghost predicate StartedIn(s: State, ids: set<Id>) {
    forall id :: id in s.flags && s.flags[id] != 0 ==> id in ids
  }

  lemma StartedKept(p: Program, s: State, ids: set<Id>, t: nat)
    requires Inv(p, s) && Confined(s, ids) && StartedIn(s, ids) && t < |s.threads|
    ensures Typed(p, s) && StartedIn(Step(p, s, t), ids)
  {
    assert Typed(p, s) && ThreadConfined(s.threads[t], ids);
    hide Inv, Calls, Declares;
  }

  lemma {:induction false} StartedAlways(p: Program, s: State, ids: set<Id>, schedule: seq<nat>)
    requires Inv(p, s) && ClosedIds(p, ids) && Confined(s, ids) && StartedIn(s, ids) && ScheduleFor(schedule, |s.threads|)
    ensures StartedIn(Run(p, s, schedule), ids)
    decreases |schedule|
  {
    hide Inv, Step, ClosedIds, Confined, StartedIn;
    if schedule != [] {
      ConfinedKept(p, s, ids, schedule[0]);
      StartedKept(p, s, ids, schedule[0]);
      StepKeeps(p, s, schedule[0]);
      SameThreads(p, s, schedule[0]);
      StartedAlways(p, Step(p, s, schedule[0]), ids, schedule[1..]);
    }
  }

  /** In every run only what is asked for, or declared by something that is, is started or registered. */
  lemma OnlyNeeded(p: Program, todos: seq<seq<Id>>, schedule: seq<nat>, id: Id)
    requires WellFormed(p) && TodosKnown(p, todos) && ScheduleFor(schedule, |todos|)
    ensures Inv(p, Start(p, todos))
    ensures var s := Run(p, Start(p, todos), schedule);
            id in s.registered || (id in s.flags && s.flags[id] != 0) ==> id in p && Needed(p, todos, id)
  {
    StartKeeps(p, todos);
    var ids, s := AllNeeded(p, todos), Start(p, todos);
    NeededClosed(p, todos);
    forall t | 0 <= t < |s.threads| ensures ThreadConfined(s.threads[t], ids) {
      forall x | x in s.threads[t].todo ensures x in ids {
        assert IsAsked(todos, x);
        AskedNeeded(p, todos, x);
      }
    }
    hide Needed, ClosedIds;
    StartedAlways(p, s, ids, schedule);
    hide Start;
    if id in Run(p, s, schedule).registered {
      RegisteredStarted(p, Run(p, s, schedule), id);
    }
  }

  lemma RegisteredStarted(p: Program, s: State, id: Id)
    requires Inv(p, s) && id in s.registered
    ensures id in s.flags && s.flags[id] != 0
  {
    RegisteredIn(p, s.registered, id);
    assert FlagOk(s, id);
  }

  lemma RegisteredIn(p: Program, registered: seq<Id>, id: Id)
    requires InOrder(p, registered) && id in registered
    ensures id in p && forall d :: Declares(p[id], d) ==> d in registered
  {
    hide Declares;
    var j :| 0 <= j < |registered| && registered[j] == id;
  }

  lemma {:induction false} PathRegistered(p: Program, registered: seq<Id>, q: seq<Id>, k: nat)
    requires InOrder(p, registered) && CallPath(p, q) && q[0] in registered && k < |q|
    ensures q[k] in registered
  {
    if k > 0 {
      PathRegistered(p, registered, q, k - 1);
      hide InOrder, Declares;
      assert CallAt(p, q, k - 1);
      RegisteredIn(p, registered, q[k - 1]);
    }
  }

  /** When every thread is at rest, exactly what is asked for, and all that is declared below it, is registered. */
  lemma EndsWithNeeded(p: Program, todos: seq<seq<Id>>, schedule: seq<nat>, id: Id)
    requires WellFormed(p) && TodosKnown(p, todos) && EndsBy(p, todos, schedule)
    ensures Inv(p, Start(p, todos))
    ensures id in Run(p, Start(p, todos), schedule).registered <==> Needed(p, todos, id)
  {
    StartKeeps(p, todos);
    OnlyNeeded(p, todos, schedule, id);
    if q :| Leads(p, todos, q, id) {
      var i :| 0 <= i < |todos| && q[0] in todos[i];
      var s := Start(p, todos);
      EndsRegistered(p, s, schedule, i, q[0]);
      EndOrder(p, Run(p, s, schedule));
      PathRegistered(p, Run(p, s, schedule).registered, q, |q| - 1);
    }
  }

  lemma EndOrder(p: Program, s: State)
    requires Inv(p, s)
    ensures InOrder(p, s.registered)
  {
  }
}
