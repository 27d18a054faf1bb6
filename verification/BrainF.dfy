/**
 examples/BrainF/BrainF.cpp: the compiler itself.  It reads symbols with one symbol of lookahead, joins
 runs of equal kind, and emits code for each symbol as it goes along, calling itself for the body of a loop.
 */
module BrainFCompiler {
  import opened BrainFBuilder
  import opened BrainFCode
  import opened BrainFEmission
  import opened BrainFLanguage
  import opened BrainFPreservation
  import opened BrainFSimulation
  import opened Wrappers

  /** The symbols of the language (BrainF.h:46-55). */
  datatype Symbol = SymNone | SymRead | SymWrite | SymMove | SymChange | SymLoop | SymEndLoop | SymEOF

  /** How parsing ends; the program aborts unless it is Parsed. */
  datatype Outcome = Parsed | ExtraBracket | MissingBracket

  /** The text of a symbol that stands for the commands `run`. */
  function Spelled(s: Symbol, run: seq<Cmd>): string {
    match s
    case SymNone => ""
    case SymEOF => ""
    case SymRead => ","
    case SymWrite => "."
    case SymMove => Text(run)
    case SymChange => Text(run)
    case SymLoop => "["
    case SymEndLoop => "]"
  }

  /** The value of a symbol is the net value of its run. */
  ghost predicate RunOf(s: Symbol, value: int, run: seq<Cmd>) {
    && (s.SymMove? || s.SymChange? ==> run != [] && Net(run) == value)
    && (s.SymMove? ==> forall c :: c in run ==> c == Left || c == Right)
    && (s.SymChange? ==> forall c :: c in run ==> c == Inc || c == Dec)
  }

  predicate Coalesces(s: Symbol) {
    s.SymMove? || s.SymChange?
  }

  lemma RunStarts(s: Symbol, c: Cmd)
    requires if s.SymMove? then c == Left || c == Right else s.SymChange? && (c == Inc || c == Dec)
    ensures RunOf(s, Delta(c), [c]) && Spelled(s, [c]) == Spelling(c)
  {
    TextOfOne(c);
    assert Net([]) == 0 && [c][..0] == [];
  }

  lemma RunGrows(s: Symbol, value: int, run: seq<Cmd>, c: Cmd)
    requires RunOf(s, value, run)
    requires if s.SymMove? then c == Left || c == Right else s.SymChange? && (c == Inc || c == Dec)
    ensures RunOf(s, value + Delta(c), run + [c]) && Spelled(s, run + [c]) == Spelled(s, run) + Spelling(c)
  {
    TextOfBoth(run, [c]);
    TextOfOne(c);
    assert (run + [c])[..|run|] == run;
  }

  lemma OneMoreSymbol(text: string, from: nat, to: nat)
    requires from <= to < |text|
    ensures Symbols(text[from..to + 1]) == Symbols(text[from..to]) + if IsSymbol(text[to]) then [text[to]] else []
  {
    assert text[from..to + 1][..to - from] == text[from..to];
  }

  lemma SymbolsJoin(text: string, a: nat, b: nat, c: nat)
    requires a <= b <= c <= |text|
    ensures Symbols(text[a..c]) == Symbols(text[a..b]) + Symbols(text[b..c])
  {
    SymbolsOfBoth(text[a..b], text[b..c]);
    assert text[a..b] + text[b..c] == text[a..c];
  }

  lemma TextMore(ops: seq<Op>, op: Op)
    ensures Text(Expand(ops + [op])) == Text(Expand(ops)) + Text(Commands(op))
  {
    ExpandBoth(ops, [op]);
    TextOfBoth(Expand(ops), Expand([op]));
    assert Expand([op][1..]) == [];
    assert Expand([op]) == Commands(op);
  }

  /** The return block and the error block are there and have no phi nodes. */
  ghost predicate FixedBlocks(bounds: bool, code: Code) {
    && |code| > ENDBB && code[ENDBB].phi.NoPhi?
    && (bounds ==> |code| > ABERRORBB && code[ABERRORBB].phi.NoPhi?)
  }

  lemma FixedStill(bounds: bool, a: Code, b: Code)
    requires FixedBlocks(bounds, a) && Extends(a, b)
    ensures FixedBlocks(bounds, b)
  {
    NoPhiStill(a, b, ENDBB);
    if bounds {
      NoPhiStill(a, b, ABERRORBB);
    }
  }

  lemma GrownExtends(bounds: bool, s: Site, ops: seq<Op>, code: Code, bb: nat, head: Reg, unused: Reg)
    requires Grown(bounds, s, ops, code, bb, head, unused)
    ensures Extends(s.code, code) && OnlyAt(s, code, {}) && bb < |code| && Here(s, code, bb) && unused > head > ARRMAX
  {
  }

  class BrainF {
    var text: string      // the stream being read
    var pos: nat
    var memtotal: nat
    var bounds: bool      // flag_arraybounds
    var code: Code
    var bb: nat           // the insertion point of the builder
    var curhead: Reg
    var unused: Reg       // the next register

    constructor () {
      text, pos, memtotal, bounds := "", 0, 0, false;
      code, bb, curhead, unused := [], 0, FIRSTHEAD, FIRSTHEAD + 1;
    }

    /**
     Compiles `in1` (BrainF.cpp:40-50).  If the brackets match, the graph has the blocks and the code that
     the program, as a list of commands, calls for; otherwise the compiler gives up.
     */
    method Parse(in1: string, mem: nat, cf: bool) returns (r: Outcome, ghost ops: seq<Op>)
      modifies this
      ensures r.Parsed? <==> Balanced(Symbols(in1))
      ensures r.ExtraBracket? <==> exists i :: 0 <= i <= |Symbols(in1)| && Depth(Symbols(in1)[..i]) < 0
      ensures r.MissingBracket? <==> Depth(Symbols(in1)) > 0 && forall i :: 0 <= i <= |Symbols(in1)| ==> Depth(Symbols(in1)[..i]) >= 0
      ensures r.Parsed? ==> Text(Expand(ops)) == Symbols(in1) && Built(code, {})
      ensures r.Parsed? ==> forall heap :: Compiled(Machine(code, heap, cf, mem, curhead), ops)
    {
      hide *;
      text, pos, memtotal, bounds := in1, 0, mem, cf;
      Header();
      HeaderGrown(cf, mem, unused);
      ghost var s := HeaderSite(cf, mem);
      HeaderSites(cf, mem);
      StartGrowing(s);
      ghost var t;
      r, ops, t := ReadLoop(None, 0, 0, s);
      WasRead(0, ops);
      BracketsSettled(in1, pos, ops, r);
      if r.Parsed? {
        ProgramCompiled(s, ops, code, cf, mem, curhead);
      }
    }

    /** The fixed pieces of code (BrainF.cpp:52-182). */
    method Header()
      modifies this`code, this`bb, this`curhead, this`unused
      ensures code == HeaderBlocks(bounds, memtotal) && bb == 0 && curhead == FIRSTHEAD && unused > FIRSTHEAD
    {
      code, bb, curhead, unused := Added([], NoPhi), 0, FIRSTHEAD, FIRSTHEAD + 1;
      code := Appended(code, bb, [Malloc(ARR, memtotal)]);
      code := Appended(code, bb, [Memset(ARR, 0, memtotal)]);
      if bounds {
        code := Appended(code, bb, [Gep(ARRMAX, ARR, memtotal)]);
      }
      code := Appended(code, bb, [Gep(curhead, ARR, memtotal / 2)]);
      assert code[0].code == HeaderCode(bounds, memtotal) && |code| == 1;
      code := Added(code, NoPhi);
      code := Appended(code, ENDBB, [Free(ARR), Ret]);
      assert code[0] == Block(NoPhi, HeaderCode(bounds, memtotal));
      assert code[1].code == [Free(ARR), Ret];
      assert code == [Block(NoPhi, HeaderCode(bounds, memtotal)), Block(NoPhi, [Free(ARR), Ret])];
      if bounds {
        code := Added(code, NoPhi);
        code := Appended(code, ABERRORBB, [Puts, Br(ENDBB)]);
        assert code[2].code == [Puts, Br(ENDBB)];
      }
    }

    lemma StartGrowing(s: Site)
      requires Grown(bounds, s, [], code, bb, curhead, unused) && FixedBlocks(bounds, s.code)
      ensures Growing(s, [])
    {
    }

    lemma WasRead(start: nat, ops: seq<Op>)
      ensures ReadSince(start, ops, "]") ==> start <= pos <= |text| && Symbols(text[start..pos]) == Text(Expand(ops)) + "]"
      ensures ReadSince(start, ops, "") ==> start <= pos <= |text| && Symbols(text[start..pos]) == Text(Expand(ops)) + ""
    {
    }

    ghost predicate Growing(s: Site, ops: seq<Op>)
      reads this
    {
      Grown(bounds, s, ops, code, bb, curhead, unused) && FixedBlocks(bounds, s.code)
    }

    method EmitRead(ghost s: Site, ghost ops: seq<Op>) returns (ghost op: Op)
      requires Growing(s, ops)
      modifies this`code, this`unused
      ensures Growing(s, ops + [op]) && unused > old(unused) && Commands(op) == [Read] && op.OpRead?
    {
      hide Grown;
      GrownExtends(bounds, s, ops, code, bb, curhead, unused);
      var t := unused;
      op := OpRead(t);
      AppendedHere(code, bb, ReadCode(t, curhead));
      GrownStraight(bounds, s, ops, code, bb, curhead, unused, op, ReadCode(t, curhead), curhead, t + 2);
      unused := t + 2;
      code := Appended(code, bb, [GetChar(t), Trunc(t + 1, t), Store(t + 1, curhead)]);
    }

    method EmitWrite(ghost s: Site, ghost ops: seq<Op>) returns (ghost op: Op)
      requires Growing(s, ops)
      modifies this`code, this`unused
      ensures Growing(s, ops + [op]) && unused > old(unused) && Commands(op) == [Write] && op.OpWrite?
    {
      hide Grown;
      GrownExtends(bounds, s, ops, code, bb, curhead, unused);
      var t := unused;
      op := OpWrite(t);
      AppendedHere(code, bb, WriteCode(t, curhead));
      GrownStraight(bounds, s, ops, code, bb, curhead, unused, op, WriteCode(t, curhead), curhead, t + 2);
      unused := t + 2;
      code := Appended(code, bb, [Load(t, curhead), SExt(t + 1, t), PutChar(t + 1)]);
    }

    method EmitChange(curvalue: int, ghost run: seq<Cmd>, ghost s: Site, ghost ops: seq<Op>) returns (ghost op: Op)
      requires Growing(s, ops) && RunOf(SymChange, curvalue, run)
      modifies this`code, this`unused
      ensures Growing(s, ops + [op]) && unused > old(unused) && Commands(op) == run && op.OpChange?
    {
      hide Grown;
      GrownExtends(bounds, s, ops, code, bb, curhead, unused);
      var t := unused;
      op := OpChange(run, t);
      AppendedHere(code, bb, ChangeCode(t, curhead, curvalue));
      GrownStraight(bounds, s, ops, code, bb, curhead, unused, op, ChangeCode(t, curhead, curvalue), curhead, t + 2);
      unused := t + 2;
      code := Appended(code, bb, [Load(t, curhead), Add(t + 1, t, curvalue % 256), Store(t + 1, curhead)]);
    }

    method EmitMove(curvalue: int, ghost run: seq<Cmd>, ghost s: Site, ghost ops: seq<Op>) returns (ghost op: Op)
      requires Growing(s, ops) && RunOf(SymMove, curvalue, run)
      modifies this`code, this`bb, this`curhead, this`unused
      ensures Growing(s, ops + [op]) && unused > old(unused) && Commands(op) == run && op.OpMove?
    {
      hide Grown;
      GrownExtends(bounds, s, ops, code, bb, curhead, unused);
      FixedStill(bounds, s.code, code);
      var to, t := unused, unused + 1;
      op := OpMove(run, to, t, |code|);
      if bounds {
        GrownChecked(s, ops, code, bb, curhead, unused, run);
      } else {
        AppendedHere(code, bb, [Gep(to, curhead, curvalue)]);
        GrownStraight(bounds, s, ops, code, bb, curhead, unused, op, [Gep(to, curhead, curvalue)], to, t);
      }
      code := Appended(code, bb, [Gep(to, curhead, curvalue)]);
      curhead, unused := to, t;
      if bounds {
        code := Appended(code, bb, [UGe(t, curhead, ARRMAX), ULt(t + 1, curhead, ARR), Or(t + 2, t, t + 1)]);
        var nextbb := |code|;
        code := Added(code, NoPhi);
        code := Appended(code, bb, [CondBr(t + 2, ABERRORBB, nextbb)]);
        bb, unused := nextbb, t + 3;
      }
    }

    /** The test block and the body block of a loop, the phi node with its first incoming value (BrainF.cpp:283-299). */
    method BeginLoop(ghost s: Site, ghost ops: seq<Op>) returns (testbb: nat, phi: Reg)
      requires Growing(s, ops)
      modifies this`code, this`bb, this`curhead, this`unused
      ensures old(bb) < |old(code)| && testbb == |old(code)| && phi == old(unused) && bb == testbb + 1
      ensures code == InLoop(s, old(code), old(bb), old(curhead), phi).code && curhead == phi && unused == phi + 1
    {
      hide Grown;
      GrownExtends(bounds, s, ops, code, bb, curhead, unused);
      testbb, phi := |code|, unused;
      code := Added(code, Phi(phi, []));
      var bb0 := bb;
      code := Appended(code, bb0, [Br(testbb)]);
      code := WithIncoming(code, testbb, curhead, bb0);
      bb := |code|;
      code := Added(code, NoPhi);
      curhead, unused := phi, phi + 1;
    }

    /** The loop test, once the body has been read (BrainF.cpp:423-455). */
    method EndLoop(phi: Reg, oldbb: nat, testbb: nat, ghost s: Site, ghost ops: seq<Op>) returns (ghost t: Reg)
      requires Growing(s, ops) && InTest(s, code, phi, oldbb, testbb) && phi < unused
      modifies this`code, this`bb, this`curhead, this`unused
      ensures LoopDone(bounds, s, ops, testbb, phi, code, t, bb, curhead, unused)
    {
      hide Grown, LoopDone;
      GrownExtends(bounds, s, ops, code, bb, curhead, unused);
      t := unused;
      var tape0, test0, head1 := unused, unused + 1, unused + 2;
      LoopIsDone(bounds, s, ops, code, bb, curhead, unused, testbb, phi);
      code := Appended(code, bb, [Br(testbb)]);
      code := WithIncoming(code, testbb, curhead, bb);
      code := Appended(code, testbb, [Load(tape0, phi), IsZero(test0, tape0)]);
      var bb0 := |code|;
      code := Added(code, Phi(head1, []));
      code := Appended(code, testbb, [CondBr(test0, bb0, oldbb)]);
      bb := bb0;
      code := WithIncoming(code, bb0, phi, testbb);
      curhead, unused := head1, head1 + 1;
    }

    /**
     Reads up to the end of the current symbol (BrainF.cpp:311-414): a run of `+` and `-`, or of `<` and `>`,
     ends at the first symbol of another kind, which becomes the next symbol.
     */
    method ReadSymbols(cursym0: Symbol, curvalue0: int, ghost run0: seq<Cmd>)
      returns (cursym: Symbol, curvalue: int, nextsym: Symbol, nextvalue: int, ghost run: seq<Cmd>, ghost nextrun: seq<Cmd>)
      requires pos <= |text| && RunOf(cursym0, curvalue0, run0)
      modifies this`pos
      ensures old(pos) <= pos <= |text|
      ensures Spelled(cursym0, run0) + Symbols(text[old(pos)..pos]) == Spelled(cursym, run) + Spelled(nextsym, nextrun)
      ensures RunOf(cursym, curvalue, run) && RunOf(nextsym, nextvalue, nextrun)
      ensures !nextsym.SymNone? ==> Coalesces(cursym)
      ensures Coalesces(cursym) ==> !nextsym.SymNone?
      ensures !(cursym.SymMove? && nextsym.SymMove?)
      ensures !cursym.SymNone? && (!cursym0.SymNone? ==> cursym == cursym0)
      ensures cursym0.SymEOF? ==> pos == old(pos)
      ensures (cursym.SymEOF? && !cursym0.SymEOF?) || nextsym.SymEOF? ==> pos == |text|
      ensures pos == old(pos) ==> cursym == cursym0 || cursym.SymEOF?
      ensures pos == old(pos) ==> nextsym.SymNone? || nextsym.SymEOF?
    {
      hide Symbols, Text, RunOf, Spelled;
      NoSpelling();
      NoRun(SymNone, 0, []);
      cursym, curvalue, nextsym, nextvalue, run, nextrun := cursym0, curvalue0, SymNone, 0, run0, [];
      var loop := cursym.SymNone? || cursym.SymMove? || cursym.SymChange?;
      NoSymbols(text, pos);
      while loop
        invariant old(pos) <= pos <= |text|
        invariant Spelled(cursym0, run0) + Symbols(text[old(pos)..pos]) == Spelled(cursym, run) + Spelled(nextsym, nextrun)
        invariant RunOf(cursym, curvalue, run) && RunOf(nextsym, nextvalue, nextrun)
        invariant !nextsym.SymNone? ==> Coalesces(cursym) && !loop
        invariant !(cursym.SymMove? && nextsym.SymMove?)
        invariant loop <==> cursym.SymNone? || (Coalesces(cursym) && nextsym.SymNone?)
        invariant !cursym0.SymNone? ==> cursym == cursym0
        invariant cursym0.SymEOF? ==> pos == old(pos)
        invariant (cursym.SymEOF? && !cursym0.SymEOF?) || nextsym.SymEOF? ==> pos == |text| && !loop
        invariant pos == old(pos) ==> (cursym == cursym0 || cursym.SymEOF?) && (nextsym.SymNone? || nextsym.SymEOF?)
        decreases |text| - pos, loop
      {
        if pos == |text| {
          NoRun(SymEOF, curvalue, run);
          NoRun(SymEOF, nextvalue, nextrun);
          if cursym.SymNone? {
            cursym := SymEOF;
          } else {
            nextsym := SymEOF;
          }
          loop := false;
        } else {
          var c := text[pos];
          ghost var before := Symbols(text[old(pos)..pos]);
          OneMoreSymbol(text, old(pos), pos);
          Joined(Spelled(cursym0, run0), before, if IsSymbol(c) then [c] else []);
          assert Spelled(cursym0, run0) + before == Spelled(cursym, run);
          pos := pos + 1;
          cursym, curvalue, nextsym, nextvalue, run, nextrun, loop := TakeCharacter(c, cursym, curvalue, run);
        }
      }
    }

    /** One character of the text (BrainF.cpp:320-413). */
    static method TakeCharacter(c: char, cursym0: Symbol, curvalue0: int, ghost run0: seq<Cmd>)
      returns (cursym: Symbol, curvalue: int, nextsym: Symbol, nextvalue: int, ghost run: seq<Cmd>, ghost nextrun: seq<Cmd>, loop: bool)
      requires RunOf(cursym0, curvalue0, run0) && (cursym0.SymNone? || Coalesces(cursym0))
      ensures RunOf(cursym, curvalue, run) && RunOf(nextsym, nextvalue, nextrun)
      ensures Spelled(cursym0, run0) + (if IsSymbol(c) then [c] else []) == Spelled(cursym, run) + Spelled(nextsym, nextrun)
      ensures !cursym0.SymNone? ==> cursym == cursym0
      ensures loop ==> nextsym.SymNone? && (cursym.SymNone? || Coalesces(cursym))
      ensures !loop ==> !cursym.SymNone? && (nextsym.SymNone? <==> !Coalesces(cursym))
      ensures !(cursym.SymMove? && nextsym.SymMove?)
      ensures !cursym.SymEOF? && !nextsym.SymEOF?
    {
      hide Text, RunOf;
      if c == '-' || c == '+' {
        cursym, curvalue, nextsym, nextvalue, run, nextrun, loop :=
          TakeRun(SymChange, if c == '-' then Dec else Inc, cursym0, curvalue0, run0);
      } else if c == '<' || c == '>' {
        cursym, curvalue, nextsym, nextvalue, run, nextrun, loop :=
          TakeRun(SymMove, if c == '<' then Left else Right, cursym0, curvalue0, run0);
      } else {
        cursym, curvalue, nextsym, nextvalue, run, nextrun, loop := cursym0, curvalue0, SymNone, 0, run0, [], true;
        NoRun(SymNone, 0, []);
        if IsSymbol(c) {
          NoRun(SingleSymbol(c), curvalue0, run0);
          NoRun(SingleSymbol(c), 0, []);
          if cursym.SymNone? {
            cursym := SingleSymbol(c);
          } else {
            nextsym := SingleSymbol(c);
          }
          loop := false;
        }
      }
    }

    /** One of `+`, `-`, `<`, `>` (BrainF.cpp:329-371): joins the current symbol, starts one, or is the next one. */
    static method TakeRun(sym: Symbol, c: Cmd, cursym0: Symbol, curvalue0: int, ghost run0: seq<Cmd>)
      returns (cursym: Symbol, curvalue: int, nextsym: Symbol, nextvalue: int, ghost run: seq<Cmd>, ghost nextrun: seq<Cmd>, loop: bool)
      requires if sym.SymMove? then c == Left || c == Right else sym.SymChange? && (c == Inc || c == Dec)
      requires RunOf(cursym0, curvalue0, run0) && (cursym0.SymNone? || Coalesces(cursym0))
      ensures RunOf(cursym, curvalue, run) && RunOf(nextsym, nextvalue, nextrun)
      ensures Spelled(cursym0, run0) + Spelling(c) == Spelled(cursym, run) + Spelled(nextsym, nextrun)
      ensures cursym == if cursym0.SymNone? then sym else cursym0
      ensures nextsym == if loop then SymNone else sym
      ensures Coalesces(cursym) && cursym != nextsym
    {
      hide Text;
      cursym, curvalue, nextsym, nextvalue, run, nextrun, loop := cursym0, curvalue0, SymNone, 0, run0, [], true;
      var direction := Delta(c);
      if cursym == sym {
        RunGrows(sym, curvalue, run, c);
        curvalue, run := curvalue + direction, run + [c];
      } else {
        RunStarts(sym, c);
        if cursym.SymNone? {
          cursym, curvalue, run := sym, direction, [c];
        } else {
          nextsym, nextvalue, nextrun, loop := sym, direction, [c], false;
        }
      }
    }

    /** What has been read since `start` is the text of `ops` and of the symbols at hand. */
    ghost predicate ReadSince(start: nat, ops: seq<Op>, ahead: string)
      reads this`text, this`pos
    {
      start <= pos <= |text| && Symbols(text[start..pos]) == Text(Expand(ops)) + ahead
    }

    /** What the main loop has at hand: the current symbol, and the next one if the current one is a run. */
    ghost predicate Midway(start: nat, ops: seq<Op>, cursym: Symbol, curvalue: int, run: seq<Cmd>,
                           nextsym: Symbol, nextvalue: int, nextrun: seq<Cmd>)
      reads this`text, this`pos
    {
      && ReadSince(start, ops, Spelled(cursym, run) + Spelled(nextsym, nextrun))
      && RunOf(cursym, curvalue, run) && RunOf(nextsym, nextvalue, nextrun)
      && (Coalesces(cursym) <==> !nextsym.SymNone?)
      && MovesApart(ops) && !(cursym.SymMove? && nextsym.SymMove?)
      && (ops != [] && ops[|ops| - 1].OpMove? ==> !cursym.SymMove? && !cursym.SymNone?)
      && (cursym.SymEOF? || nextsym.SymEOF? ==> pos == |text|)
      && (cursym.SymNone? || cursym.SymEOF? || pos > start)
    }

    /** Writes out the current symbol, if there is one, and reads the next one (BrainF.cpp:195-415). */
    method NextSymbol(cursym0: Symbol, curvalue0: int, nextsym0: Symbol, nextvalue0: int,
                      ghost run0: seq<Cmd>, ghost nextrun0: seq<Cmd>, ghost s: Site, ghost ops0: seq<Op>, ghost start: nat)
      returns (r: Outcome, cursym: Symbol, curvalue: int, nextsym: Symbol, nextvalue: int,
               ghost ops: seq<Op>, ghost run: seq<Cmd>, ghost nextrun: seq<Cmd>)
      requires Growing(s, ops0) && !cursym0.SymEOF? && !cursym0.SymEndLoop?
      requires Midway(start, ops0, cursym0, curvalue0, run0, nextsym0, nextvalue0, nextrun0)
      modifies this`pos, this`code, this`bb, this`curhead, this`unused
      ensures !r.ExtraBracket?
      ensures r.Parsed? ==> Growing(s, ops) && unused >= old(unused)
      ensures r.Parsed? ==> Midway(start, ops, cursym, curvalue, run, nextsym, nextvalue, nextrun)
      ensures r.Parsed? ==> pos > old(pos) || (pos == old(pos) && Rank(cursym, nextsym) < Rank(cursym0, nextsym0))
      ensures r.MissingBracket? ==> start <= pos == |text| && Unclosed(Symbols(text[start..pos]), 1)
      decreases |text| - pos, if cursym0.SymNone? then 0 else 4
    {
      hide Grown, Symbols, Text, RunOf, Unclosed, LoopDone, ProgramDone, InTest, Expand, MovesApart;
      r, ops := Parsed, ops0;
      cursym, curvalue, nextsym, nextvalue, run, nextrun := cursym0, curvalue0, nextsym0, nextvalue0, run0, nextrun0;
      if cursym != SymNone {
        r, ops := EmitSymbol(cursym, curvalue, run, s, ops, start, Spelled(nextsym, nextrun));
        if r != Parsed {
          return;
        }
      }
      ghost var at, ahead := pos, Spelled(nextsym, nextrun);
      cursym, curvalue, nextsym, nextvalue, run, nextrun := ReadSymbols(nextsym, nextvalue, nextrun);
      SymbolsJoin(text, start, at, pos);
      Joined(Text(Expand(ops)), ahead, Symbols(text[at..pos]));
    }

    /**
     The main loop for parsing (BrainF.cpp:184-467).  Inside a loop `phi`, `oldbb` and `testbb` are the phi
     node, the first block of the body and the test block of the loop.
     */
    method ReadLoop(phi: Option<Reg>, oldbb: nat, testbb: nat, ghost s: Site)
      returns (r: Outcome, ghost ops: seq<Op>, ghost t: Reg)
      requires pos <= |text| && Growing(s, []) && s.code == code
      requires phi.Some? ==> InTest(s, s.code, phi.value, oldbb, testbb) && phi.value < unused
      modifies this`pos, this`code, this`bb, this`curhead, this`unused
      ensures r.Parsed? && phi.Some? ==> ReadSince(old(pos), ops, "]") && LoopDone(bounds, s, ops, testbb, phi.value, code, t, bb, curhead, unused)
      ensures r.Parsed? && phi.None? ==> ReadSince(old(pos), ops, "") && pos == |text| && ProgramDone(bounds, s, ops, code, curhead)
      ensures r.Parsed? ==> MovesApart(ops)
      ensures r.ExtraBracket? ==> phi.None? && ReadSince(old(pos), ops, "]")
      ensures r.MissingBracket? ==> old(pos) <= pos == |text| && Unclosed(Symbols(text[old(pos)..pos]), if phi.Some? then 0 else 1)
      decreases |text| - pos, 1
    {
      hide Grown, Symbols, Text, RunOf, Unclosed, LoopDone, ProgramDone, InTest, Expand, MovesApart;
      NothingApart();
      var cursym, curvalue, nextsym, nextvalue := SymNone, 0, SymNone, 0;
      ghost var run, nextrun: seq<Cmd> := [], [];
      ops, t := [], 0;
      NothingRead(text, pos);
      NoRun(SymNone, 0, []);
      while cursym != SymEOF && cursym != SymEndLoop
        invariant Growing(s, ops) && unused >= old(unused)
        invariant Midway(old(pos), ops, cursym, curvalue, run, nextsym, nextvalue, nextrun)
        decreases |text| - pos, Rank(cursym, nextsym)
      {
        r, cursym, curvalue, nextsym, nextvalue, ops, run, nextrun :=
          NextSymbol(cursym, curvalue, nextsym, nextvalue, run, nextrun, s, ops, old(pos));
        if r != Parsed {
          StillUnclosed(Symbols(text[old(pos)..pos]));
          return;
        }
      }
      r, t := FinishReading(cursym, phi, oldbb, testbb, s, ops, old(pos));
    }

    /** At the end of the text or a closing bracket (BrainF.cpp:417-466). */
    method FinishReading(cursym: Symbol, phi: Option<Reg>, oldbb: nat, testbb: nat, ghost s: Site, ghost ops: seq<Op>, ghost start: nat)
      returns (r: Outcome, ghost t: Reg)
      requires Growing(s, ops) && ReadSince(start, ops, Spelled(cursym, [])) && (cursym.SymEOF? || cursym.SymEndLoop?)
      requires cursym.SymEOF? ==> pos == |text|
      requires phi.Some? ==> InTest(s, s.code, phi.value, oldbb, testbb) && phi.value < unused
      modifies this`code, this`bb, this`curhead, this`unused
      ensures r.Parsed? && phi.Some? ==> ReadSince(start, ops, "]") && LoopDone(bounds, s, ops, testbb, phi.value, code, t, bb, curhead, unused)
      ensures r.Parsed? && phi.None? ==> ReadSince(start, ops, "") && pos == |text| && ProgramDone(bounds, s, ops, code, curhead)
      ensures r.ExtraBracket? ==> phi.None? && ReadSince(start, ops, "]")
      ensures r.MissingBracket? ==> start <= pos == |text| && Unclosed(Symbols(text[start..pos]), if phi.Some? then 0 else 1)
    {
      hide Grown, Symbols, Text, RunOf, Unclosed, LoopDone, ProgramDone, InTest, Expand, MovesApart;
      r, t := Parsed, 0;
      if cursym == SymEndLoop {
        if phi.None? {
          r := ExtraBracket;
          return;
        }
        InTestStill(bounds, s, ops, code, bb, curhead, unused, phi.value, oldbb, testbb);
        t := EndLoop(phi.value, oldbb, testbb, s, ops);
        return;
      }
      GrownExtends(bounds, s, ops, code, bb, curhead, unused);
      FixedStill(bounds, s.code, code);
      ProgramIsDone(bounds, s, ops, code, bb, curhead, unused);
      code := Appended(code, bb, [Br(ENDBB)]);
      if phi.Some? {
        TextDepth(Expand(ops));
        r := MissingBracket;
      }
    }

    /** Writes out the command of one symbol (BrainF.cpp:196-309). */
    method EmitSymbol(cursym: Symbol, curvalue: int, ghost run: seq<Cmd>, ghost s: Site, ghost ops0: seq<Op>,
                      ghost start: nat, ghost ahead: string)
      returns (r: Outcome, ghost ops: seq<Op>)
      requires !cursym.SymNone? && !cursym.SymEOF? && !cursym.SymEndLoop? && RunOf(cursym, curvalue, run)
      requires Growing(s, ops0) && ReadSince(start, ops0, Spelled(cursym, run) + ahead)
      requires cursym.SymLoop? ==> ahead == ""
      requires MovesApart(ops0) && (ops0 != [] && ops0[|ops0| - 1].OpMove? ==> !cursym.SymMove?)
      modifies this`pos, this`code, this`bb, this`curhead, this`unused
      ensures old(pos) <= pos <= |text| && (!cursym.SymLoop? ==> pos == old(pos))
      ensures !r.ExtraBracket?
      ensures r.Parsed? ==> Growing(s, ops) && unused >= old(unused) && ReadSince(start, ops, ahead)
      ensures r.Parsed? ==> MovesApart(ops) && ops != [] && (ops[|ops| - 1].OpMove? ==> cursym.SymMove?)
      ensures r.MissingBracket? ==> start <= pos == |text| && Unclosed(Symbols(text[start..pos]), 1)
      decreases |text| - pos, 3
    {
      hide Grown, Symbols, Text, RunOf, Unclosed, LoopDone, ProgramDone, InTest, Expand, InLoop, MovesApart;
      r := Parsed;
      ghost var op;
      match cursym {
        case SymRead => op := EmitRead(s, ops0);
        case SymWrite => op := EmitWrite(s, ops0);
        case SymMove => op := EmitMove(curvalue, run, s, ops0);
        case SymChange => op := EmitChange(curvalue, run, s, ops0);
        case SymLoop =>
          r, op := EmitLoop(s, ops0, start);
          ops := ops0 + [op];
          if r == Parsed {
            ApartMore(ops0, op);
          }
          return;
      }
      ApartMore(ops0, op);
      ops := ops0 + [op];
      SymbolRead(ops0, op, cursym, run, ahead);
    }

    /** A whole loop: the blocks, the body by a recursive call, and the test (BrainF.cpp:283-303). */
    method EmitLoop(ghost s: Site, ghost ops: seq<Op>, ghost start: nat) returns (r: Outcome, ghost op: Op)
      requires Growing(s, ops) && ReadSince(start, ops, "[")
      modifies this`pos, this`code, this`bb, this`curhead, this`unused
      ensures old(pos) <= pos <= |text| && !r.ExtraBracket?
      ensures r.Parsed? ==> Growing(s, ops + [op]) && unused >= old(unused) && ReadSince(start, ops + [op], "")
      ensures r.Parsed? ==> op.OpLoop? && MovesApart(op.body)
      ensures r.MissingBracket? ==> start <= pos == |text| && Unclosed(Symbols(text[start..pos]), 1)
      decreases |text| - pos, 2
    {
      hide Grown, Symbols, Text, Unclosed, LoopDone, ProgramDone, InTest, Expand, InLoop, MovesApart;
      ghost var code0, bb0, head0, at := code, bb, curhead, pos;
      GrownExtends(bounds, s, ops, code, bb, curhead, unused);
      var testbb, phi := BeginLoop(s, ops);
      ghost var s1 := InLoop(s, code0, bb0, head0, phi);
      ghost var body, t;
      LoopReady(bounds, s, ops, code0, bb0, head0, phi);
      r, body, t := ReadLoop(Some(phi), bb, testbb, s1);
      op := OpLoop(body, testbb + 1, testbb, phi, t, bb, curhead);
      SymbolsJoin(text, start, at, pos);
      if r.Parsed? {
        GrownLoop(bounds, s, ops, code0, bb0, head0, phi, body, code, t, bb, curhead, unused);
        LoopDoneOrder(bounds, s1, body, testbb, phi, code, t, bb, curhead, unused);
        LoopRead(ops, op);
      } else {
        OpenDepth(Expand(ops));
        UnclosedBoth(Symbols(text[start..at]), 1, Symbols(text[at..pos]), 0);
      }
    }
  }

  lemma NoSpelling()
    ensures forall run :: Spelled(SymNone, run) == "" && Spelled(SymEOF, run) == ""
  {
  }

  lemma NothingApart()
    ensures MovesApart([])
  {
  }

  /** The whole program has been emitted from `s` on, and ends with a branch to the return block, the head in `head`. */
  ghost predicate ProgramDone(bounds: bool, s: Site, ops: seq<Op>, code: Code, head: Reg) {
    var end := AfterAll(bounds, ops, s.at);
    && Extends(s.code, code) && OnlyAt(s, code, {}) && Built(code, s.others)
    && Emitted(code, bounds, ops, s.at) && Holds(code, end.block, end.idx, [Br(ENDBB)]) && end.head == head
  }

  lemma ProgramIsDone(bounds: bool, s: Site, ops: seq<Op>, code: Code, bb: nat, head: Reg, unused: Reg)
    requires Grown(bounds, s, ops, code, bb, head, unused) && FixedBlocks(bounds, code)
    ensures bb < |code| && ProgramDone(bounds, s, ops, Appended(code, bb, [Br(ENDBB)]), head)
  {
    ProgramEnds(bounds, s, ops, code, bb, head, unused);
  }

  function HeaderBlocks(bounds: bool, mem: nat): Code {
    [Block(NoPhi, HeaderCode(bounds, mem)), Block(NoPhi, [Free(ARR), Ret])]
    + if bounds then [Block(NoPhi, [Puts, Br(ENDBB)])] else []
  }

  /** Where reading starts: behind the header, with no other block unfinished. */
  function HeaderSite(bounds: bool, mem: nat): Site {
    Site(HeaderBlocks(bounds, mem), {}, HeaderEnd(bounds))
  }

  lemma HeaderSites(bounds: bool, mem: nat)
    ensures HeaderSite(bounds, mem).code == HeaderBlocks(bounds, mem)
  {
  }

  lemma HeaderGrown(bounds: bool, mem: nat, unused: Reg)
    requires unused > FIRSTHEAD
    ensures Grown(bounds, HeaderSite(bounds, mem), [], HeaderBlocks(bounds, mem), 0, FIRSTHEAD, unused)
    ensures FixedBlocks(bounds, HeaderBlocks(bounds, mem))
  {
    HeaderBuilt(bounds, mem);
    GrownNothing(bounds, HeaderSite(bounds, mem), unused);
  }

  lemma HeaderBuilt(bounds: bool, mem: nat)
    ensures Built(HeaderBlocks(bounds, mem), {0})
  {
    var code := HeaderBlocks(bounds, mem);
    assert forall b :: 0 <= b < |code| ==> BlockFormed(code[b]) && code[b].phi.NoPhi?;
  }

  lemma BracketsSettled(text: string, pos: nat, ops: seq<Op>, r: Outcome)
    requires pos <= |text|
    requires r.Parsed? ==> pos == |text| && Symbols(text[0..pos]) == Text(Expand(ops)) + ""
    requires r.ExtraBracket? ==> Symbols(text[0..pos]) == Text(Expand(ops)) + "]"
    requires r.MissingBracket? ==> pos == |text| && Unclosed(Symbols(text[0..pos]), 1)
    ensures r.Parsed? <==> Balanced(Symbols(text))
    ensures r.ExtraBracket? <==> exists i :: 0 <= i <= |Symbols(text)| && Depth(Symbols(text)[..i]) < 0
    ensures r.MissingBracket? <==> Depth(Symbols(text)) > 0 && forall i :: 0 <= i <= |Symbols(text)| ==> Depth(Symbols(text)[..i]) >= 0
    ensures r.Parsed? ==> Text(Expand(ops)) == Symbols(text)
  {
    var read := Symbols(text[0..pos]);
    SymbolsOfBoth(text[0..pos], text[pos..]);
    assert text[0..pos] + text[pos..] == text;
    if r.Parsed? {
      TextBalanced(Expand(ops));
      assert text[0..pos] == text && Text(Expand(ops)) + "" == Text(Expand(ops));
    } else if r.ExtraBracket? {
      TextBalanced(Expand(ops));
      DepthOfBoth(Text(Expand(ops)), "]");
      DepthOfOne(']');
      assert Symbols(text)[..|read|] == read;
    } else {
      assert text[0..pos] == text;
    }
  }

  lemma ProgramCompiled(s: Site, ops: seq<Op>, code: Code, bounds: bool, mem: nat, head: Reg)
    requires s == HeaderSite(bounds, mem) && ProgramDone(bounds, s, ops, code, head) && MovesApart(ops)
    ensures Built(code, {}) && forall heap :: Compiled(Machine(code, heap, bounds, mem, head), ops)
  {
    hide Emitted, Built;
    assert Holds(s.code, 0, 0, HeaderCode(bounds, mem));
    HoldsStill(s.code, code, 0, 0, HeaderCode(bounds, mem));
    assert code[ENDBB] == s.code[ENDBB];
    assert bounds ==> code[ABERRORBB] == s.code[ABERRORBB];
  }

  /** How many more symbols the main loop has at hand. */
  function Rank(cursym: Symbol, nextsym: Symbol): nat {
    if nextsym.SymNone? then (if cursym.SymEOF? || cursym.SymEndLoop? then 0 else 1)
    else if nextsym.SymEOF? then 2 else 3
  }

  lemma NothingRead(text: string, i: nat)
    requires i <= |text|
    ensures Symbols(text[i..i]) == "" && Text(Expand([])) == ""
  {
  }

  lemma SymbolRead(ops: seq<Op>, op: Op, sym: Symbol, run: seq<Cmd>, ahead: string)
    requires Text(Commands(op)) == Spelled(sym, run) || (Coalesces(sym) && Commands(op) == run)
      || (sym.SymRead? && Commands(op) == [Read]) || (sym.SymWrite? && Commands(op) == [Write])
    ensures Text(Expand(ops + [op])) + ahead == Text(Expand(ops)) + (Spelled(sym, run) + ahead)
  {
    TextMore(ops, op);
    TextOfOne(Read);
    TextOfOne(Write);
    hide Text, Expand;
    Joined(Text(Expand(ops)), Spelled(sym, run), ahead);
  }

  lemma LoopRead(ops: seq<Op>, op: Op)
    requires op.OpLoop?
    ensures (Text(Expand(ops)) + "[") + (Text(Expand(op.body)) + "]") == Text(Expand(ops + [op])) + ""
  {
    TextMore(ops, op);
    TextOfOne(Loop(Expand(op.body)));
    hide Text, Expand;
    Joined(Text(Expand(ops)), "[", Text(Expand(op.body)) + "]");
    Joined("[", Text(Expand(op.body)), "]");
  }

  lemma StillUnclosed(s: string)
    requires Unclosed(s, 1)
    ensures Unclosed(s, 0)
  {
  }

  lemma TextDepth(cs: seq<Cmd>)
    ensures Unclosed(Text(cs) + "", 0)
  {
    TextBalanced(cs);
    assert Text(cs) + "" == Text(cs);
  }

  lemma OpenDepth(cs: seq<Cmd>)
    ensures Unclosed(Text(cs) + "[", 1)
  {
    TextBalanced(cs);
    DepthOfOne('[');
    assert "["[..0] == "" && "["[..1] == "[";
    UnclosedBoth(Text(cs), 0, "[", 1);
  }

  lemma InTestStill(bounds: bool, s: Site, ops: seq<Op>, code: Code, bb: nat, head: Reg, unused: Reg, phi: Reg, oldbb: nat, testbb: nat)
    requires Grown(bounds, s, ops, code, bb, head, unused) && InTest(s, s.code, phi, oldbb, testbb)
    ensures InTest(s, code, phi, oldbb, testbb)
  {
  }

  lemma LoopReady(bounds: bool, s: Site, ops: seq<Op>, code: Code, bb: nat, head: Reg, phi: Reg)
    requires Grown(bounds, s, ops, code, bb, head, phi) && bb < |code| && FixedBlocks(bounds, s.code)
    ensures var s1 := InLoop(s, code, bb, head, phi);
      && Grown(bounds, s1, [], s1.code, |code| + 1, phi, phi + 1) && FixedBlocks(bounds, s1.code)
      && InTest(s1, s1.code, phi, |code| + 1, |code|)
  {
    var s1 := InLoop(s, code, bb, head, phi);
    hide Here, Extends, LoopEntered, Built;
    LoopStarts(bounds, s, ops, code, bb, head, phi);
    GrownNothing(bounds, s1, phi + 1);
    GrownExtends(bounds, s, ops, code, bb, head, phi);
    FixedStill(bounds, s.code, code);
    LoopEnteredExtends(s, code, bb, head, phi);
    FixedStill(bounds, code, s1.code);
  }

  lemma LoopEnteredExtends(s: Site, code: Code, bb: nat, head: Reg, phi: Reg)
    requires Here(s, code, bb)
    ensures Extends(code, LoopEntered(code, bb, head, phi))
  {
    BuiltRange(code, s.others + {bb});
    hide Built;
    LoopEnteredBuilt(code, s.others, bb, head, phi);
  }

  lemma LoopDoneOrder(bounds: bool, s: Site, ops: seq<Op>, test: nat, phi: Reg, code: Code, t: Reg, exit: nat, exitHead: Reg, unused: Reg)
    requires LoopDone(bounds, s, ops, test, phi, code, t, exit, exitHead, unused)
    ensures unused > phi
  {
  }

  lemma NoRun(s: Symbol, value: int, run: seq<Cmd>)
    requires !Coalesces(s)
    ensures RunOf(s, value, run)
  {
  }

  function SingleSymbol(c: char): Symbol
    requires c in ",.[]"
  {
    if c == ',' then SymRead else if c == '.' then SymWrite else if c == '[' then SymLoop else SymEndLoop
  }

  lemma NoSymbols(text: string, i: nat)
    requires i <= |text|
    ensures Symbols(text[i..i]) == ""
  {
  }

  /** The test block of the loop being read is as BeginLoop has left it. */
  ghost predicate InTest(s: Site, code: Code, phi: Reg, oldbb: nat, testbb: nat) {
    && testbb in s.others && testbb < |code| && code[testbb].phi.Phi? && code[testbb].phi.dst == phi && code[testbb].code == []
    && oldbb == s.at.block && oldbb != testbb && oldbb < |s.code| && s.code[oldbb].phi.NoPhi?
  }

}
