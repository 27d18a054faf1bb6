/**
 The language that examples/BrainF/BrainF.cpp compiles (BrainF.cpp:10-23): its text, its commands, and a
 direct interpreter that carries out one command of the text at a time.
 */
module BrainFLanguage {
  type byte = x: int | 0 <= x < 256

  datatype Cmd = Read | Write | Inc | Dec | Left | Right | Loop(body: seq<Cmd>)

  // ---------------------------------------------------------------- text

  predicate IsSymbol(c: char) {
    c in ",.+-<>[]"
  }

  /** The characters of `s` that are not comments. */
  function Symbols(s: string): string {
    if s == [] then [] else Symbols(s[..|s| - 1]) + if IsSymbol(s[|s| - 1]) then [s[|s| - 1]] else []
  }

  lemma {:induction false} SymbolsOfBoth(a: string, b: string)
    ensures Symbols(a + b) == Symbols(a) + Symbols(b)
  {
    if b == [] {
      assert a + b == a;
    } else {
      SymbolsOfBoth(a, b[..|b| - 1]);
      assert (a + b)[..|a + b| - 1] == a + b[..|b| - 1];
    }
  }

  /** A command as it is written. */
  function Spelling(c: Cmd): string
    decreases c, 0
  {
    match c
    case Read => ","
    case Write => "."
    case Inc => "+"
    case Dec => "-"
    case Left => "<"
    case Right => ">"
    case Loop(body) => "[" + Text(body) + "]"
  }

  function Text(cs: seq<Cmd>): string {
    if cs == [] then "" else Spelling(cs[0]) + Text(cs[1..])
  }

  lemma Joined(a: string, b: string, c: string)
    ensures (a + b) + c == a + (b + c)
  {
  }

  lemma {:induction false} TextOfBoth(a: seq<Cmd>, b: seq<Cmd>)
    ensures Text(a + b) == Text(a) + Text(b)
  {
    if a == [] {
      assert a + b == b;
    } else {
      TextOfBoth(a[1..], b);
      assert (a + b)[0] == a[0] && (a + b)[1..] == a[1..] + b;
      Joined(Spelling(a[0]), Text(a[1..]), Text(b));
    }
  }

  lemma TextOfOne(c: Cmd)
    ensures Text([c]) == Spelling(c)
  {
    assert Text([c][1..]) == "";
  }

  ghost predicate ClosesOrEnds(s: string) {
    s == "" || s[0] == ']'
  }

  lemma FirstOfText(cs: seq<Cmd>, s: string)
    requires cs != []
    ensures Text(cs) + s != "" && (Text(cs) + s)[0] == Spelling(cs[0])[0] != ']'
  {
  }

  /** The part of a text behind its first symbol. */
  function Behind(cs: seq<Cmd>, s: string): string
    requires cs != []
  {
    if cs[0].Loop? then Text(cs[0].body) + ("]" + (Text(cs[1..]) + s)) else Text(cs[1..]) + s
  }

  lemma BehindFirst(cs: seq<Cmd>, s: string)
    requires cs != []
    ensures Text(cs) + s == [Spelling(cs[0])[0]] + Behind(cs, s)
  {
    var rest := Text(cs[1..]);
    Joined(Spelling(cs[0]), rest, s);
    if cs[0].Loop? {
      Joined("[" + Text(cs[0].body), "]", rest + s);
      Joined("[", Text(cs[0].body), "]" + (rest + s));
      assert Spelling(cs[0])[0] == '[';
    } else {
      assert Spelling(cs[0]) == [Spelling(cs[0])[0]];
    }
  }

  lemma SameTail(x: char, a: string, y: char, b: string)
    requires [x] + a == [y] + b
    ensures x == y && a == b
  {
    assert a == ([x] + a)[1..] && b == ([y] + b)[1..];
    assert ([x] + a)[0] == x && ([y] + b)[0] == y;
  }

  /** What follows a list of commands in its text tells where the list ends. */
  lemma {:induction false} SplitUnique(a: seq<Cmd>, s: string, b: seq<Cmd>, t: string)
    requires Text(a) + s == Text(b) + t && ClosesOrEnds(s) && ClosesOrEnds(t)
    ensures a == b && s == t
    decreases a
  {
    if a != [] { FirstOfText(a, s); }
    if b != [] { FirstOfText(b, t); }
    if a == [] || b == [] {
      assert Text([]) + s == s && Text([]) + t == t;
    } else {
      BehindFirst(a, s);
      BehindFirst(b, t);
      SameTail(Spelling(a[0])[0], Behind(a, s), Spelling(b[0])[0], Behind(b, t));
      hide Text;
      var s', t' := Text(a[1..]) + s, Text(b[1..]) + t;
      if a[0].Loop? {
        SplitUnique(a[0].body, "]" + s', b[0].body, "]" + t');
        SameTail(']', s', ']', t');
      }
      SplitUnique(a[1..], s, b[1..], t);
      assert a == [a[0]] + a[1..] && b == [b[0]] + b[1..];
    }
  }

  /** A text is the text of at most one program. */
  lemma ProgramUnique(a: seq<Cmd>, b: seq<Cmd>)
    requires Text(a) == Text(b)
    ensures a == b
  {
    assert Text(a) + "" == Text(b) + "";
    SplitUnique(a, "", b, "");
  }

  /** How many brackets are open at the end of `s`. */
  function Depth(s: string): int {
    if s == "" then 0
    else Depth(s[..|s| - 1]) + if s[|s| - 1] == '[' then 1 else if s[|s| - 1] == ']' then -1 else 0
  }

  /** No bracket closes what has not been opened. */
  ghost predicate NothingExtra(s: string) {
    forall i :: 0 <= i <= |s| ==> Depth(s[..i]) >= 0
  }

  ghost predicate Balanced(s: string) {
    Depth(s) == 0 && NothingExtra(s)
  }

  /** At least `n` brackets are left open, and nothing else is wrong. */
  ghost predicate Unclosed(s: string, n: nat) {
    Depth(s) >= n && NothingExtra(s)
  }

  lemma {:induction false} DepthOfBoth(a: string, b: string)
    ensures Depth(a + b) == Depth(a) + Depth(b)
  {
    if b == [] {
      assert a + b == a;
    } else {
      DepthOfBoth(a, b[..|b| - 1]);
      assert (a + b)[..|a + b| - 1] == a + b[..|b| - 1];
    }
  }

  lemma BalancedBoth(a: string, b: string)
    requires Balanced(a) && Balanced(b)
    ensures Balanced(a + b)
  {
    UnclosedBoth(a, 0, b, 0);
    DepthOfBoth(a, b);
  }

  lemma UnclosedBoth(a: string, m: nat, b: string, n: nat)
    requires Unclosed(a, m) && Unclosed(b, n)
    ensures Unclosed(a + b, m + n)
  {
    DepthOfBoth(a, b);
    forall i | 0 <= i <= |a + b| ensures Depth((a + b)[..i]) >= 0 {
      if i <= |a| {
        assert (a + b)[..i] == a[..i];
      } else {
        assert (a + b)[..i] == a + b[..i - |a|];
        assert a[..|a|] == a;
        DepthOfBoth(a, b[..i - |a|]);
      }
    }
  }

  lemma DepthOfOne(c: char)
    ensures Depth([c]) == if c == '[' then 1 else if c == ']' then -1 else 0
  {
    assert [c][..0] == "";
  }

  lemma BalancedLoop(s: string)
    requires Balanced(s)
    ensures Balanced("[" + s + "]")
  {
    var t := "[" + s + "]";
    DepthOfOne('[');
    DepthOfOne(']');
    DepthOfBoth("[", s);
    DepthOfBoth("[" + s, "]");
    forall i | 0 <= i <= |t| ensures Depth(t[..i]) >= 0 {
      if 0 < i < |t| {
        assert t[..i] == "[" + s[..i - 1];
        DepthOfBoth("[", s[..i - 1]);
      } else {
        assert i == 0 || t[..i] == t;
      }
    }
  }

  /** The text of a program is balanced. */
  lemma {:induction false} TextBalanced(cs: seq<Cmd>)
    ensures Balanced(Text(cs))
    decreases cs
  {
    if cs != [] {
      if cs[0].Loop? {
        TextBalanced(cs[0].body);
        BalancedLoop(Text(cs[0].body));
      } else {
        var s := Spelling(cs[0]);
        DepthOfOne(s[0]);
        assert s == [s[0]];
        assert s[..1] == s;
      }
      TextBalanced(cs[1..]);
      BalancedBoth(Spelling(cs[0]), Text(cs[1..]));
    }
  }

  // ---------------------------------------------------------------- the direct interpreter

  /** What putchar and puts have written. */
  datatype Event = Char(c: byte) | HeadLeftTape

  /** `rest` is what remains to be done; a cell that is not in `tape` holds 0. */
  datatype State = State(rest: seq<Cmd>, head: int, tape: map<int, byte>, input: seq<byte>, out: seq<Event>)

  function Cell(tape: map<int, byte>, i: int): byte {
    if i in tape then tape[i] else 0
  }

  /** getchar answers -1 at the end of the input; the cell gets its low byte. */
  function ByteRead(input: seq<byte>): byte {
    if input == [] then 255 else input[0]
  }

  function Tail(input: seq<byte>): seq<byte> {
    if input == [] then [] else input[1..]
  }

  function Obey(s: State): State {
    if s.rest == [] then s
    else
      var next, cell := s.(rest := s.rest[1..]), Cell(s.tape, s.head);
      match s.rest[0]
      case Read => next.(tape := s.tape[s.head := ByteRead(s.input)], input := Tail(s.input))
      case Write => next.(out := s.out + [Char(cell)])
      case Inc => next.(tape := s.tape[s.head := (cell + 1) % 256])
      case Dec => next.(tape := s.tape[s.head := (cell - 1) % 256])
      case Left => next.(head := s.head - 1)
      case Right => next.(head := s.head + 1)
      case Loop(body) => if cell == 0 then next else s.(rest := body + s.rest)
  }

  /** `n` commands of the program. */
  function Interpret(s: State, n: nat): State
    decreases n
  {
    if n == 0 then s else Interpret(Obey(s), n - 1)
  }

  lemma {:induction false} InterpretMore(s: State, a: nat, b: nat)
    ensures Interpret(s, a + b) == Interpret(Interpret(s, a), b)
    decreases a
  {
    if a != 0 {
      InterpretMore(Obey(s), a - 1, b);
    }
  }

  lemma {:induction false} StaysHalted(s: State, n: nat)
    requires s.rest == []
    ensures Interpret(s, n) == s
  {
    if n != 0 {
      StaysHalted(s, n - 1);
    }
  }

  lemma {:induction false} OutputGrows(s: State, n: nat)
    ensures s.out <= Interpret(s, n).out
    decreases n
  {
    if n != 0 {
      OutputGrows(Obey(s), n - 1);
    }
  }
}
