/**
 The language of examples/BrainF/BrainF.cpp once more, character by character as its documentation has it
 (BrainF.cpp:10-23): a bracket looks for the one that matches it in the text, and everything that is no symbol is
 passed over.  The interpreter of commands does the same, and so do compiled programs.
 */
module BrainFText {
  import opened BrainFCode
  import opened BrainFEmission
  import opened BrainFLanguage
  import opened BrainFPreservation
  import opened BrainFSimulation

  /** `rest` is the text still to be read. */
  datatype TextState = TextState(rest: string, head: int, tape: map<int, byte>, input: seq<byte>, out: seq<Event>)

  /** The place from `k` on at which all brackets opened in `s` are closed, or the end of `s`. */
  function Closing(s: string, k: nat): (i: nat)
    requires k <= |s|
    ensures k <= i <= |s|
    decreases |s| - k
  {
    if k == |s| || Depth(s[..k + 1]) == 0 then k else Closing(s, k + 1)
  }

  /** One character of the text; a loop whose body is to be done stands behind its body once more. */
  function ReadCharacter(s: TextState): TextState {
    if s.rest == "" then s
    else
      var next, cell := s.(rest := s.rest[1..]), Cell(s.tape, s.head);
      match s.rest[0]
      case ',' =>
        if s.input == [] then next.(tape := s.tape[s.head := 255])
        else next.(tape := s.tape[s.head := s.input[0]], input := s.input[1..])
      case '.' => next.(out := s.out + [Char(cell)])
      case '+' => next.(tape := s.tape[s.head := if cell == 255 then 0 else cell + 1])
      case '-' => next.(tape := s.tape[s.head := if cell == 0 then 255 else cell - 1])
      case '<' => next.(head := s.head - 1)
      case '>' => next.(head := s.head + 1)
      case '[' =>
        var i := Closing(s.rest, 1);
        if i == |s.rest| then s.(rest := "")
        else if cell == 0 then s.(rest := s.rest[i + 1..])
        else s.(rest := s.rest[1..i] + s.rest)
      case _ => next
  }

  /** `n` characters. */
  function ReadText(s: TextState, n: nat): TextState
    decreases n
  {
    if n == 0 then s else ReadText(ReadCharacter(s), n - 1)
  }

  lemma {:induction false} ReadMore(s: TextState, a: nat, b: nat)
    ensures ReadText(s, a + b) == ReadText(ReadText(s, a), b)
    decreases a
  {
    if a != 0 {
      ReadMore(ReadCharacter(s), a - 1, b);
    }
  }

  // ---------------------------------------------------------------- texts and their symbols

  lemma FirstSymbol(s: string)
    requires s != ""
    ensures Symbols(s) == (if IsSymbol(s[0]) then [s[0]] else "") + Symbols(s[1..])
  {
    SymbolsOfBoth([s[0]], s[1..]);
    assert [s[0]] + s[1..] == s;
    assert [s[0]][..0] == "";
  }

  lemma {:induction false} DepthOfSymbols(s: string)
    ensures Depth(s) == Depth(Symbols(s))
  {
    if s != "" {
      var n := |s| - 1;
      DepthOfSymbols(s[..n]);
      if IsSymbol(s[n]) {
        DepthOfBoth(Symbols(s[..n]), [s[n]]);
        DepthOfOne(s[n]);
      } else {
        assert Symbols(s[..n]) + [] == Symbols(s[..n]);
      }
    }
  }

  lemma SymbolsLast(s: string)
    requires s != ""
    ensures var n := |s| - 1; Symbols(s) == if IsSymbol(s[n]) then Symbols(s[..n]) + [s[n]] else Symbols(s[..n])
  {
    var n := |s| - 1;
    assert Symbols(s[..n]) + [] == Symbols(s[..n]);
  }

  lemma SameLast(a: string, x: char, b: string, y: char)
    requires a + [x] == b + [y]
    ensures a == b && x == y
  {
    assert a == (a + [x])[..|a|] && b == (b + [y])[..|b|];
    assert (a + [x])[|a|] == x && (b + [y])[|b|] == y;
  }

  /** Where a symbol stands in the text. */
  lemma {:induction false} FindSymbol(s: string, a: string, c: char, b: string) returns (i: nat)
    requires Symbols(s) == a + [c] + b
    ensures i < |s| && s[i] == c && Symbols(s[..i]) == a && Symbols(s[i + 1..]) == b
    decreases |s|
  {
    assert |Symbols(s)| > 0;
    NoText();
    SymbolsLast(s);
    hide Symbols;
    var n := |s| - 1;
    var last := s[n];
    if !IsSymbol(last) {
      i := FindSymbol(s[..n], a, c, b);
      OneBehind(s, i);
    } else if b == "" {
      assert a + [c] + b == a + [c];
      SameLast(Symbols(s[..n]), last, a, c);
      i := n;
      assert s[n + 1..] == "";
    } else {
      var b' := b[..|b| - 1];
      assert a + [c] + b == (a + [c] + b') + [b[|b| - 1]];
      SameLast(Symbols(s[..n]), last, a + [c] + b', b[|b| - 1]);
      i := FindSymbol(s[..n], a, c, b');
      OneBehind(s, i);
      assert b == b' + [last];
    }
  }

  lemma NoText()
    ensures Symbols("") == ""
  {
  }

  lemma OneBehind(s: string, i: nat)
    requires i < |s| - 1
    ensures var n := |s| - 1;
            s[..n][..i] == s[..i]
            && Symbols(s[i + 1..]) == if IsSymbol(s[n]) then Symbols(s[..n][i + 1..]) + [s[n]] else Symbols(s[..n][i + 1..])
  {
    var n, r := |s| - 1, s[i + 1..];
    SymbolsLast(r);
    assert r[..|r| - 1] == s[..n][i + 1..] && r[|r| - 1] == s[n];
  }

  lemma SymbolsPrefix(s: string, j: nat, i: nat)
    requires j <= i <= |s|
    ensures Symbols(s[..j]) <= Symbols(s[..i])
  {
    SymbolsOfBoth(s[..j], s[j..i]);
    assert s[..j] + s[j..i] == s[..i];
  }

  ghost predicate OpenBehind(s: string, j: nat)
    requires j < |s|
  {
    Depth(s[..j + 1]) > 0
  }

  lemma {:induction false} ClosingIs(s: string, k: nat, i: nat)
    requires k <= i < |s| && Depth(s[..i + 1]) == 0 && forall j: nat :: k <= j < i ==> OpenBehind(s, j)
    ensures Closing(s, k) == i
    decreases i - k
  {
    if k < i {
      assert OpenBehind(s, k);
      ClosingIs(s, k + 1, i);
    }
  }

  /** The bracket that closes a loop is found, whatever comments there are. */
  lemma LoopCloses(s: string, body: seq<Cmd>, tail: string) returns (i: nat)
    requires s != "" && s[0] == '[' && Symbols(s[1..]) == Text(body) + "]" + tail
    ensures 0 < i < |s| && Closing(s, 1) == i && Symbols(s[1..i]) == Text(body) && Symbols(s[i + 1..]) == tail
  {
    hide Text;
    var u := s[1..];
    var k := FindSymbol(u, Text(body), ']', tail);
    i := k + 1;
    assert u[..k] == s[1..i] && u[k + 1..] == s[i + 1..];
    TextBalanced(body);
    forall j: nat | 1 <= j < i ensures OpenBehind(s, j) {
      InsideLoop(s, body, j, k);
    }
    assert s[..i + 1] == s[..i] + "]" && s[..i] == "[" + u[..k];
    DepthOfBoth(s[..i], "]");
    DepthOfBoth("[", u[..k]);
    DepthOfOne('[');
    DepthOfOne(']');
    DepthOfSymbols(u[..k]);
    ClosingIs(s, 1, i);
  }

  lemma InsideLoop(s: string, body: seq<Cmd>, j: nat, k: nat)
    requires s != "" && s[0] == '[' && j <= k < |s| - 1 && Symbols(s[1..][..k]) == Text(body) && Balanced(Text(body))
    ensures OpenBehind(s, j)
  {
    hide Text;
    var u := s[1..];
    assert s[..j + 1] == "[" + u[..j];
    DepthOfBoth("[", u[..j]);
    DepthOfOne('[');
    SymbolsPrefix(u, j, k);
    DepthOfSymbols(u[..j]);
    var n := |Symbols(u[..j])|;
    assert Symbols(u[..j]) == Text(body)[..n];
  }

  // ---------------------------------------------------------------- the interpreter reads the same

  /** The text stands for the commands to be done, with any comments, and everything else is the same. */
  ghost predicate SameState(t: TextState, s: State) {
    Symbols(t.rest) == Text(s.rest) && t.head == s.head && t.tape == s.tape && t.input == s.input && t.out == s.out
  }

  lemma NextCommand(t: TextState, s: State)
    requires SameState(t, s) && t.rest != "" && IsSymbol(t.rest[0])
    ensures s.rest != [] && t.rest[0] == Spelling(s.rest[0])[0] && Symbols(t.rest[1..]) == BrainFLanguage.Behind(s.rest, "")
  {
    FirstSymbol(t.rest);
    assert |Symbols(t.rest)| > 0;
    if s.rest == [] {
      assert false;
    } else {
      BehindFirst(s.rest, "");
      assert Text(s.rest) + "" == Text(s.rest);
      SameTail(t.rest[0], Symbols(t.rest[1..]), Spelling(s.rest[0])[0], BrainFLanguage.Behind(s.rest, ""));
    }
  }

  /** A character that is a symbol is a command of the interpreter, and any other does nothing. */
  lemma CharacterIsCommand(t: TextState, s: State)
    requires SameState(t, s) && t.rest != ""
    ensures SameState(ReadCharacter(t), if IsSymbol(t.rest[0]) then Obey(s) else s)
  {
    if !IsSymbol(t.rest[0]) {
      CommentIsNothing(t);
    } else {
      NextCommand(t, s);
      hide Symbols, Text, Obey, ReadCharacter;
      if s.rest[0].Loop? {
        LoopIsLoop(t, s);
      } else {
        CharacterObeyed(t, s);
      }
    }
  }

  lemma CommentIsNothing(t: TextState)
    requires t.rest != "" && !IsSymbol(t.rest[0])
    ensures ReadCharacter(t) == t.(rest := t.rest[1..]) && Symbols(t.rest[1..]) == Symbols(t.rest)
  {
    FirstSymbol(t.rest);
    assert "" + Symbols(t.rest[1..]) == Symbols(t.rest[1..]);
  }

  lemma CharacterObeyed(t: TextState, s: State)
    requires SameState(t, s) && t.rest != "" && s.rest != [] && !s.rest[0].Loop?
    requires t.rest[0] == Spelling(s.rest[0])[0] && Symbols(t.rest[1..]) == BrainFLanguage.Behind(s.rest, "")
    ensures SameState(ReadCharacter(t), Obey(s))
  {
    hide Symbols, Text, Closing;
    var tail := Text(s.rest[1..]);
    assert tail + "" == tail;
    assert Obey(s).rest == s.rest[1..] && ReadCharacter(t).rest == t.rest[1..];
    match s.rest[0]
    case Read =>
    case Write =>
    case Inc =>
    case Dec =>
    case Left =>
    case Right =>
  }

  lemma LoopIsLoop(t: TextState, s: State)
    requires SameState(t, s) && t.rest != "" && s.rest != [] && s.rest[0].Loop?
    requires t.rest[0] == '[' && Symbols(t.rest[1..]) == BrainFLanguage.Behind(s.rest, "")
    ensures SameState(ReadCharacter(t), Obey(s))
  {
    var body, tail := s.rest[0].body, Text(s.rest[1..]);
    assert BrainFLanguage.Behind(s.rest, "") == Text(body) + ("]" + (tail + ""));
    hide BrainFLanguage.Behind, Text, Symbols, Closing, IsSymbol;
    assert tail + "" == tail;
    Joined(Text(body), "]", tail);
    var i := LoopCloses(t.rest, body, tail);
    SymbolsOfBoth(t.rest[1..i], t.rest);
    TextOfBoth(body, s.rest);
  }

  /** What has been read of the text has been done by the interpreter. */
  lemma {:induction false} TextInterpreted(t: TextState, s: State, n: nat) returns (m: nat)
    requires SameState(t, s)
    ensures m <= n && SameState(ReadText(t, n), Interpret(s, m))
    decreases n
  {
    hide SameState, Obey;
    if n == 0 {
      m := 0;
    } else if t.rest == "" {
      m := TextInterpreted(ReadCharacter(t), s, n - 1);
    } else {
      CharacterIsCommand(t, s);
      if IsSymbol(t.rest[0]) {
        m := TextInterpreted(ReadCharacter(t), Obey(s), n - 1);
        m := m + 1;
      } else {
        m := TextInterpreted(ReadCharacter(t), s, n - 1);
      }
    }
  }

  lemma TextLeft(t: TextState, s: State)
    requires SameState(t, s) && s.rest != []
    ensures t.rest != ""
  {
    FirstOfText(s.rest, "");
    assert Text(s.rest) + "" == Text(s.rest);
  }

  /** And what the interpreter does is found in the text. */
  lemma {:induction false} CommandsRead(t: TextState, s: State, m: nat) returns (n: nat)
    requires SameState(t, s)
    ensures SameState(ReadText(t, n), Interpret(s, m))
    decreases m, |t.rest|
  {
    if m == 0 {
      n := 0;
    } else if s.rest == [] {
      StaysHalted(s, m);
      n := 0;
    } else {
      TextLeft(t, s);
      CharacterIsCommand(t, s);
      hide SameState, Obey;
      if IsSymbol(t.rest[0]) {
        n := CommandsRead(ReadCharacter(t), Obey(s), m - 1);
      } else {
        n := CommandsRead(ReadCharacter(t), s, m);
      }
      n := n + 1;
    }
  }

  // ---------------------------------------------------------------- compiled programs do what their text says

  function TextSource(m: Machine, text: string, input: seq<byte>): TextState {
    TextState(text, m.mem / 2, map[], input, [])
  }

  lemma SourceSame(m: Machine, ops: seq<Op>, text: string, input: seq<byte>)
    requires Text(Expand(ops)) == Symbols(text)
    ensures SameState(TextSource(m, text, input), Source(m, Expand(ops), input))
  {
  }

  /** All that the text says to write is written by the compiled program, and nothing else, even if it never ends. */
  lemma TextOutputPreserved(m: Machine, ops: seq<Op>, text: string, input: seq<byte>, n: nat) returns (a: nat, b: nat)
    requires Compiled(m, ops) && (m.bounds ==> m.mem > 0) && Text(Expand(ops)) == Symbols(text)
    requires StaysOnTape(m, Source(m, Expand(ops), input))
    ensures ReadText(TextSource(m, text, input), n).out <= Steps(m, Boot(input), b).out
    ensures Steps(m, Boot(input), n).out <= ReadText(TextSource(m, text, input), a).out
  {
    hide Compiled, Steps, Interpret, Expand, StaysOnTape, ReadText;
    SourceSame(m, ops, text, input);
    var t, s := TextSource(m, text, input), Source(m, Expand(ops), input);
    var k := TextInterpreted(t, s, n);
    var a1;
    a1, b := OutputPreserved(m, ops, input, k);
    var a2, b2 := OutputPreserved(m, ops, input, n);
    a := CommandsRead(t, s, a2);
  }

  /** When the text has been read to its end, the compiled program returns with the same output, tape and head. */
  lemma TextHaltingPreserved(m: Machine, ops: seq<Op>, text: string, input: seq<byte>, n: nat) returns (b: nat, k: nat)
    requires Compiled(m, ops) && (m.bounds ==> m.mem > 0) && Text(Expand(ops)) == Symbols(text)
    requires StaysOnTape(m, Source(m, Expand(ops), input)) && ReadText(TextSource(m, text, input), n).rest == ""
    ensures SameState(ReadText(TextSource(m, text, input), n), Interpret(Source(m, Expand(ops), input), k))
    ensures Finished(m, Interpret(Source(m, Expand(ops), input), k), Steps(m, Boot(input), b))
  {
    hide Compiled, Steps, Interpret, Expand, StaysOnTape, ReadText, Finished;
    SourceSame(m, ops, text, input);
    var t, s := TextSource(m, text, input), Source(m, Expand(ops), input);
    k := TextInterpreted(t, s, n);
    NothingLeft(ReadText(t, n), Interpret(s, k));
    b := HaltingPreserved(m, ops, input, k);
  }

  lemma NothingLeft(t: TextState, s: State)
    requires SameState(t, s) && t.rest == ""
    ensures s.rest == []
  {
    if s.rest != [] {
      TextLeft(t, s);
    }
  }
}
