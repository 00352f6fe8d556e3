/** Reading the emitted statements back as BrainFuck: a weighted statement
    stands for its run, a loop for its body in brackets. Translating a
    well-nested program and expanding the result gives back the program with
    its comment characters removed. */
module Expansion {
  import opened Brackets
  import opened Target
  import opened Translator

  /** `n` copies of `c`. */
  function Repeat(c: char, n: nat): (s: seq<char>)
    ensures |s| == n
    ensures forall k :: 0 <= k < n ==> s[k] == c
  {
    if n == 0 then [] else Repeat(c, n - 1) + [c]
  }

  /** The instructions a statement list stands for. */
  function Expand(prog: seq<Stmt>): seq<char>
    decreases prog
  {
    if prog == [] then []
    else ExpandStmt(prog[0]) + Expand(prog[1..])
  }

  function ExpandStmt(s: Stmt): seq<char>
    decreases s
  {
    match s
    case AddCell(n) => Repeat('+', n)
    case SubCell(n) => Repeat('-', n)
    case MoveRight(n) => Repeat('>', n)
    case MoveLeft(n) => Repeat('<', n)
    case Output => "."
    case Input => ","
    case Loop(body) => "[" + Expand(body) + "]"
  }

  /** The instruction characters of a string, in order. */
  function Instructions(s: seq<char>): (r: seq<char>)
    ensures |r| <= |s|
    ensures forall k :: 0 <= k < |r| ==> IsInstruction(r[k])
  {
    if s == [] then []
    else (if IsInstruction(s[0]) then [s[0]] else []) + Instructions(s[1..])
  }

  lemma {:induction false} InstructionsAppend(a: seq<char>, b: seq<char>)
    ensures Instructions(a + b) == Instructions(a) + Instructions(b)
    decreases a
  {
    if a == [] {
      assert a + b == b;
    } else {
      assert (a + b)[0] == a[0] && (a + b)[1..] == a[1..] + b;
      InstructionsAppend(a[1..], b);
    }
  }

  lemma InstructionsSplit(code: seq<char>, i: nat, l: nat, m: nat)
    requires i <= l <= m <= |code|
    ensures Instructions(code[i..m]) == Instructions(code[i..l]) + Instructions(code[l..m])
  {
    assert code[i..m] == code[i..l] + code[l..m];
    InstructionsAppend(code[i..l], code[l..m]);
  }

  /** A string of instructions only is its own instruction string. */
  lemma {:induction false} InstructionsOfInstructions(s: seq<char>)
    requires forall k :: 0 <= k < |s| ==> IsInstruction(s[k])
    ensures Instructions(s) == s
  {
    if s != [] {
      InstructionsOfInstructions(s[1..]);
    }
  }

  lemma ExpandCons(s: Stmt, rest: seq<Stmt>)
    ensures Expand([s] + rest) == ExpandStmt(s) + Expand(rest)
  {
    assert ([s] + rest)[0] == s && ([s] + rest)[1..] == rest;
  }

  /** The statement emitted for a character that is not a bracket stands for
      exactly the instructions the scan moves over. */
  lemma ExpandHead(code: seq<char>, i: nat)
    requires i < |code| && code[i] != '[' && code[i] != ']'
    ensures Expand(Head(code, i)) == Instructions(code[i..i + Width(code, i)])
  {
    var c := code[i];
    var k := Width(code, i);
    var span := code[i..i + k];
    if IsRunChar(c) {
      assert span == Repeat(c, k);
      InstructionsOfInstructions(span);
      ExpandCons(RunStmt(c, k), []);
    } else {
      assert span == [c];
      assert Instructions(span) == (if IsInstruction(c) then [c] else []) by {
        assert span[1..] == [];
      }
      if c == '.' || c == ',' {
        ExpandCons(Head(code, i)[0], []);
      }
    }
  }

  /** Expanding the translation of a well-nested stretch gives back its
      instructions. */
  lemma {:induction false} TranslateExpand(code: seq<char>, i: nat, m: nat)
    requires i <= m <= |code|
    requires BalancedSpan(code, i, m)
    requires m == |code| || code[m] == ']'
    ensures Expand(Translate(code, i).prog) == Instructions(code[i..m])
    decreases |code| - i, 1
  {
    if i == m {
      TranslateStop(code, i);
      assert code[i..m] == [];
    } else {
      var c := code[i];
      assert Level(code, i, i + 1) == Delta(c) by { assert Level(code, i + 1, i + 1) == 0; }
      if c == ']' {
        assert false;
      } else if c == '[' {
        TranslateExpandOpen(code, i, m);
      } else {
        TranslateExpandOther(code, i, m);
      }
    }
  }

  lemma {:induction false} TranslateExpandOther(code: seq<char>, i: nat, m: nat)
    requires i < m <= |code| && code[i] != '[' && code[i] != ']'
    requires BalancedSpan(code, i, m)
    requires m == |code| || code[m] == ']'
    ensures Expand(Translate(code, i).prog) == Instructions(code[i..m])
    decreases |code| - i, 0
  {
    var k := Width(code, i);
    var head := Head(code, i);
    var rest := Translate(code, i + k).prog;
    assert i + k <= m;
    assert Expand(rest) == Instructions(code[i + k..m]) by {
      LevelWithoutBrackets(code, i, i + k);
      NeverBelowZeroAfter(code, i, i + k, m);
      TranslateExpand(code, i + k, m);
    }
    assert Expand(head + rest) == Instructions(code[i..m]) by {
      ExpandAppend(head, rest);
      ExpandHead(code, i);
      InstructionsSplit(code, i, i + k, m);
    }
    assert Translate(code, i).prog == head + rest by {
      TranslateOther(code, i);
    }
  }

  lemma {:induction false} TranslateExpandOpen(code: seq<char>, i: nat, m: nat)
    requires i < m <= |code| && code[i] == '['
    requires BalancedSpan(code, i, m)
    requires m == |code| || code[m] == ']'
    ensures Expand(Translate(code, i).prog) == Instructions(code[i..m])
    decreases |code| - i, 0
  {
    var found, p := OpenBracketSplit(code, i, m);
    assert found;
    var inner := Translate(code, i + 1).prog;
    var rest := Translate(code, p + 1).prog;
    assert Translate(code, i).prog == [Loop(inner)] + rest by {
      TranslateOpen(code, i);
      ConsumedLength(code, i + 1, p);
    }
    assert Expand(inner) == Instructions(code[i + 1..p]) by {
      TranslateExpand(code, i + 1, p);
    }
    assert Expand(rest) == Instructions(code[p + 1..m]) by {
      TranslateExpand(code, p + 1, m);
    }
    InstructionsOfLoop(code, i, p, m);
    ExpandLoop(inner, rest);
  }

  lemma {:induction false} ExpandAppend(a: seq<Stmt>, b: seq<Stmt>)
    ensures Expand(a + b) == Expand(a) + Expand(b)
    decreases a
  {
    if a == [] {
      assert a + b == b;
    } else {
      assert (a + b)[1..] == a[1..] + b;
      ExpandAppend(a[1..], b);
    }
  }

  lemma ExpandLoop(body: seq<Stmt>, rest: seq<Stmt>)
    ensures Expand([Loop(body)] + rest) == "[" + Expand(body) + "]" + Expand(rest)
  {
    ExpandCons(Loop(body), rest);
  }

  lemma InstructionsOfLoop(code: seq<char>, i: nat, p: nat, m: nat)
    requires i < p < m <= |code| && code[i] == '[' && code[p] == ']'
    ensures Instructions(code[i..m]) == "[" + Instructions(code[i + 1..p]) + "]" + Instructions(code[p + 1..m])
  {
    assert code[i..m][0] == code[i] && code[i..m][1..] == code[i + 1..m];
    InstructionsSplit(code, i + 1, p, m);
    assert code[p..m][0] == code[p] && code[p..m][1..] == code[p + 1..m];
  }

  /** On a well-nested program the translation keeps every instruction, in
      order, and drops exactly the comment characters. */
  lemma BalancedRoundTrip(code: seq<char>)
    requires Balanced(code)
    ensures Expand(Translate(code, 0).prog) == Instructions(code)
  {
    TranslateExpand(code, 0, |code|);
    assert code[0..|code|] == code;
  }
}
