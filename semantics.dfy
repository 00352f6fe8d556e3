/** What the instructions and the emitted statements do to a tape of
    `unsigned char` cells. A reference interpreter reads the BrainFuck string
    one character at a time. A second interpreter runs the emitted statement
    tree. Both count loop iterations against the same bound `fuel`, so they
    agree for every bound exactly when they behave alike. */
module Semantics {
  import opened Brackets
  import opened Target
  import opened Translator

  /** A tape cell, an input byte or an output byte. */
  type Byte = b: int | 0 <= b < 256

  /** The tape, the position of the `tape` pointer, the bytes still to be read
      and the bytes written so far. */
  datatype Cfg = Cfg(tape: seq<Byte>, ptr: int, input: seq<Byte>, output: seq<Byte>)

  /** How a run ends: in a final configuration, by touching a cell outside the
      tape, or by using up the loop-iteration bound. */
  datatype Status = Halted(cfg: Cfg) | Fault | OutOfFuel

  predicate InRange(st: Cfg)
  {
    0 <= st.ptr < |st.tape|
  }

  function Cell(st: Cfg): Byte
    requires InRange(st)
  {
    st.tape[st.ptr]
  }

  function SetCell(st: Cfg, v: Byte): (r: Cfg)
    requires InRange(st)
    ensures InRange(r) && Cell(r) == v && r.ptr == st.ptr && |r.tape| == |st.tape|
    ensures r.input == st.input && r.output == st.output
  {
    st.(tape := st.tape[st.ptr := v])
  }

  /** Arithmetic on an `unsigned char` cell: the result is reduced modulo 256. */
  function AddMod(v: Byte, d: int): Byte
  {
    (v + d) % 256
  }

  lemma AddModAdd(v: Byte, a: int, b: int)
    ensures AddMod(AddMod(v, a), b) == AddMod(v, a + b)
  {
    var q := (v + a) / 256;
    assert AddMod(v, a) == v + a - 256 * q;
    assert AddMod(v, a) + b == (v + a + b) + 256 * (-q);
  }

  /** No input byte is 255. */
  predicate NoByte255(input: seq<Byte>)
  {
    forall k :: 0 <= k < |input| ==> input[k] != 255
  }

  // ---------------------------------------------------------------------
  // The reference interpreter on the instruction string.

  /** One instruction that is not a bracket. `,` at the end of the input
      leaves the cell as it is. Characters other than instructions do
      nothing. */
  function Step(c: char, st: Cfg): (r: Status)
    requires c != '[' && c != ']'
    ensures r.Halted? ==> |r.cfg.tape| == |st.tape|
    ensures r.Halted? ==> r.cfg.input == st.input || (st.input != [] && r.cfg.input == st.input[1..])
  {
    if c == '>' then Halted(st.(ptr := st.ptr + 1))
    else if c == '<' then Halted(st.(ptr := st.ptr - 1))
    else if !IsInstruction(c) then Halted(st)
    else if c == ',' && st.input == [] then Halted(st)
    else if !InRange(st) then Fault
    else if c == '+' then Halted(SetCell(st, AddMod(Cell(st), 1)))
    else if c == '-' then Halted(SetCell(st, AddMod(Cell(st), -1)))
    else if c == '.' then Halted(st.(output := st.output + [Cell(st)]))
    else Halted(SetCell(st, st.input[0]).(input := st.input[1..]))
  }

  /** The index of the `]` that closes `depth` open brackets, scanning from
      `j`, or the length of the string when there is none. */
  function SkipTo(code: seq<char>, j: nat, depth: nat): (p: nat)
    requires j <= |code|
    ensures j <= p <= |code|
    ensures p < |code| ==> code[p] == ']'
    decreases |code| - j
  {
    if j == |code| then |code|
    else if code[j] == '[' then SkipTo(code, j + 1, depth + 1)
    else if code[j] == ']' then (if depth == 0 then j else SkipTo(code, j + 1, depth - 1))
    else SkipTo(code, j + 1, depth)
  }

  /** Runs `code[i..m]`. A `]` without its `[`, or a `[` whose `]` lies
      outside the span, is a fault. */
  function RunSpan(code: seq<char>, i: nat, m: nat, fuel: nat, st: Cfg): Status
    requires i <= m <= |code|
    decreases fuel, m - i, 1
  {
    if i == m then Halted(st)
    else if code[i] == ']' then Fault
    else if code[i] == '[' then
      var p := SkipTo(code, i + 1, 0);
      if p >= m then Fault
      else
        var r := RunLoop(code, i + 1, p, fuel, st);
        if r.Halted? then RunSpan(code, p + 1, m, fuel, r.cfg) else r
    else
      var r := Step(code[i], st);
      if r.Halted? then RunSpan(code, i + 1, m, fuel, r.cfg) else r
  }

  /** A bracketed loop with body `code[a..b]`: repeat the body while the
      current cell is not zero, at most `fuel` times. */
  function RunLoop(code: seq<char>, a: nat, b: nat, fuel: nat, st: Cfg): Status
    requires a <= b <= |code|
    decreases fuel, b - a, 0
  {
    if !InRange(st) then Fault
    else if Cell(st) == 0 then Halted(st)
    else if fuel == 0 then OutOfFuel
    else
      var r := RunSpan(code, a, b, fuel - 1, st);
      if r.Halted? then RunLoop(code, a, b, fuel - 1, r.cfg) else r
  }

  /** A whole BrainFuck program. */
  function Run(code: seq<char>, fuel: nat, st: Cfg): Status
  {
    RunSpan(code, 0, |code|, fuel, st)
  }

  // ---------------------------------------------------------------------
  // The emitted statements.

  const EOF: int := -1

  /** `c = getchar()` stores the byte read in a `char c`, taken here to be a
      signed `char`: byte 255 becomes -1, the value of `EOF`. */
  function AsSignedChar(b: Byte): int
  {
    if b < 128 then b else b - 256
  }

  function ExecStmt(s: Stmt, fuel: nat, st: Cfg): (r: Status)
    decreases fuel, s
  {
    match s
    case MoveRight(n) => Halted(st.(ptr := st.ptr + n))
    case MoveLeft(n) => Halted(st.(ptr := st.ptr - n))
    case AddCell(n) => if InRange(st) then Halted(SetCell(st, AddMod(Cell(st), n))) else Fault
    case SubCell(n) => if InRange(st) then Halted(SetCell(st, AddMod(Cell(st), -(n as int)))) else Fault
    case Output => if InRange(st) then Halted(st.(output := st.output + [Cell(st)])) else Fault
    case Input =>
      if st.input == [] then Halted(st)
      else
        var c := AsSignedChar(st.input[0]);
        var next := st.(input := st.input[1..]);
        if c == EOF then Halted(next)
        else if InRange(next) then Halted(SetCell(next, c % 256))
        else Fault
    case Loop(body) => ExecLoop(body, fuel, st)
  }

  function Exec(prog: seq<Stmt>, fuel: nat, st: Cfg): Status
    decreases fuel, prog
  {
    if prog == [] then Halted(st)
    else
      var r := ExecStmt(prog[0], fuel, st);
      if r.Halted? then Exec(prog[1..], fuel, r.cfg) else r
  }

  /** `while(*tape) { body }`, at most `fuel` iterations. */
  function ExecLoop(body: seq<Stmt>, fuel: nat, st: Cfg): Status
    decreases fuel, body
  {
    if !InRange(st) then Fault
    else if Cell(st) == 0 then Halted(st)
    else if fuel == 0 then OutOfFuel
    else
      var r := Exec(body, fuel - 1, st);
      if r.Halted? then ExecLoop(body, fuel - 1, r.cfg) else r
  }

  // ---------------------------------------------------------------------
  // Translation preserves behaviour.

  lemma ExecCons(s: Stmt, rest: seq<Stmt>, fuel: nat, st: Cfg)
    ensures Exec([s] + rest, fuel, st) ==
            (var r := ExecStmt(s, fuel, st); if r.Halted? then Exec(rest, fuel, r.cfg) else r)
  {
    assert ([s] + rest)[0] == s && ([s] + rest)[1..] == rest;
  }

  /** A weighted statement of magnitude `k` is one step of its instruction
      followed by the statement of magnitude `k - 1`. */
  lemma RunStmtSplit(c: char, k: nat, fuel: nat, st: Cfg)
    requires IsRunChar(c) && 2 <= k
    ensures ExecStmt(RunStmt(c, k), fuel, st) ==
            (var r := Step(c, st); if r.Halted? then ExecStmt(RunStmt(c, k - 1), fuel, r.cfg) else r)
  {
    if (c == '+' || c == '-') && InRange(st) {
      var d := if c == '+' then 1 else -1;
      AddModAdd(Cell(st), d, d * (k - 1));
      assert st.tape[st.ptr := AddMod(Cell(st), d)][st.ptr := AddMod(Cell(st), d * k)]
          == st.tape[st.ptr := AddMod(Cell(st), d * k)];
    }
  }

  /** A stretch of equal `+`, `-`, `>` or `<` does what the one weighted
      statement for it does. */
  lemma {:induction false} RunSteps(code: seq<char>, i: nat, k: nat, m: nat, fuel: nat, st: Cfg)
    requires 1 <= k && i + k <= m <= |code| && IsRunChar(code[i])
    requires forall j :: i <= j < i + k ==> code[j] == code[i]
    ensures RunSpan(code, i, m, fuel, st) ==
            (var r := ExecStmt(RunStmt(code[i], k), fuel, st);
             if r.Halted? then RunSpan(code, i + k, m, fuel, r.cfg) else r)
    decreases k
  {
    var c := code[i];
    var r1 := Step(c, st);
    assert RunSpan(code, i, m, fuel, st) == if r1.Halted? then RunSpan(code, i + 1, m, fuel, r1.cfg) else r1;
    if k == 1 {
      assert ExecStmt(RunStmt(c, 1), fuel, st) == r1;
    } else {
      RunStmtSplit(c, k, fuel, st);
      if r1.Halted? {
        assert code[i + 1] == c;
        RunSteps(code, i + 1, k - 1, m, fuel, r1.cfg);
      }
    }
  }

  /** A character that is not a bracket does what the statements emitted for it
      do, and an input without byte 255 stays so. */
  lemma NonBracketStep(code: seq<char>, i: nat, m: nat, fuel: nat, st: Cfg)
    requires i < |code| && code[i] != '[' && code[i] != ']' && i + Width(code, i) <= m <= |code|
    requires NoByte255(st.input)
    ensures var r := Exec(Head(code, i), fuel, st);
            RunSpan(code, i, m, fuel, st) == (if r.Halted? then RunSpan(code, i + Width(code, i), m, fuel, r.cfg) else r) &&
            (r.Halted? ==> NoByte255(r.cfg.input))
  {
    var c := code[i];
    var k := Width(code, i);
    if IsRunChar(c) {
      RunSteps(code, i, k, m, fuel, st);
      ExecCons(RunStmt(c, k), [], fuel, st);
    } else if c == '.' || c == ',' {
      var s := if c == '.' then Output else Input;
      ExecCons(s, [], fuel, st);
      if c == ',' && st.input != [] {
        assert st.input[0] != 255;
      }
    }
  }

  /** Scanning forward for the `]` that closes `depth` open brackets finds the
      first position where the nesting level returns to zero. */
  lemma {:induction false} SkipToMatch(code: seq<char>, j: nat, depth: nat, p: nat)
    requires j <= p < |code| && code[p] == ']'
    requires forall q :: j <= q <= p ==> depth + Level(code, j, q) >= 0
    requires depth + Level(code, j, p) == 0
    ensures SkipTo(code, j, depth) == p
    decreases p - j
  {
    if j < p {
      var c := code[j];
      var d := depth + Delta(c);
      if c == ']' && depth == 0 {
        var q := j + 1;
        assert depth + Level(code, j, q) < 0;
        assert false;
      }
      var next := j + 1;
      forall q | next <= q <= p ensures d + Level(code, next, q) >= 0 {
        assert depth + Level(code, j, q) >= 0;
      }
      SkipToMatch(code, next, d, p);
    }
  }

  /** Running the statements emitted for a well-nested stretch behaves exactly
      as running the stretch, for every loop bound, on every input without
      byte 255; a run that halts leaves such an input. */
  lemma {:induction false} Preserved(code: seq<char>, i: nat, m: nat, fuel: nat, st: Cfg)
    requires i <= m <= |code| && BalancedSpan(code, i, m)
    requires m == |code| || code[m] == ']'
    requires NoByte255(st.input)
    ensures Exec(Translate(code, i).prog, fuel, st) == RunSpan(code, i, m, fuel, st)
    ensures RunSpan(code, i, m, fuel, st).Halted? ==> NoByte255(RunSpan(code, i, m, fuel, st).cfg.input)
    decreases fuel, m - i, 2
  {
    if i < m {
      var c := code[i];
      assert Level(code, i, i + 1) == Delta(c) by { assert Level(code, i + 1, i + 1) == 0; }
      if c == ']' {
        assert false;
      } else if c == '[' {
        PreservedOpen(code, i, m, fuel, st);
      } else {
        var k := Width(code, i);
        assert i + k <= m;
        TranslateOther(code, i);
        LevelWithoutBrackets(code, i, i + k);
        NeverBelowZeroAfter(code, i, i + k, m);
        ExecAppend(Head(code, i), Translate(code, i + k).prog, fuel, st);
        NonBracketStep(code, i, m, fuel, st);
        var r := Exec(Head(code, i), fuel, st);
        if r.Halted? {
          Preserved(code, i + k, m, fuel, r.cfg);
        }
      }
    }
  }

  lemma {:induction false} PreservedOpen(code: seq<char>, i: nat, m: nat, fuel: nat, st: Cfg)
    requires i < m <= |code| && code[i] == '[' && BalancedSpan(code, i, m)
    requires m == |code| || code[m] == ']'
    requires NoByte255(st.input)
    ensures Exec(Translate(code, i).prog, fuel, st) == RunSpan(code, i, m, fuel, st)
    ensures RunSpan(code, i, m, fuel, st).Halted? ==> NoByte255(RunSpan(code, i, m, fuel, st).cfg.input)
    decreases fuel, m - i, 1
  {
    var found, p := OpenBracketSplit(code, i, m);
    assert found;
    var inner := Translate(code, i + 1).prog;
    var rest := Translate(code, p + 1).prog;
    assert Translate(code, i).prog == [Loop(inner)] + rest by {
      TranslateOpen(code, i);
      ConsumedLength(code, i + 1, p);
    }
    SkipToMatch(code, i + 1, 0, p);
    ExecCons(Loop(inner), rest, fuel, st);
    LoopPreserved(code, i + 1, p, fuel, st);
    var r := RunLoop(code, i + 1, p, fuel, st);
    if r.Halted? {
      Preserved(code, p + 1, m, fuel, r.cfg);
    }
  }

  lemma {:induction false} LoopPreserved(code: seq<char>, a: nat, b: nat, fuel: nat, st: Cfg)
    requires a <= b < |code| && code[b] == ']' && BalancedSpan(code, a, b)
    requires NoByte255(st.input)
    ensures ExecLoop(Translate(code, a).prog, fuel, st) == RunLoop(code, a, b, fuel, st)
    ensures RunLoop(code, a, b, fuel, st).Halted? ==> NoByte255(RunLoop(code, a, b, fuel, st).cfg.input)
    decreases fuel, b - a, 3
  {
    if InRange(st) && Cell(st) != 0 && fuel > 0 {
      Preserved(code, a, b, fuel - 1, st);
      var r := RunSpan(code, a, b, fuel - 1, st);
      if r.Halted? {
        LoopPreserved(code, a, b, fuel - 1, r.cfg);
      }
    }
  }

  lemma {:induction false} ExecAppend(a: seq<Stmt>, b: seq<Stmt>, fuel: nat, st: Cfg)
    ensures Exec(a + b, fuel, st) ==
            (var r := Exec(a, fuel, st); if r.Halted? then Exec(b, fuel, r.cfg) else r)
    decreases a
  {
    if a == [] {
      assert a + b == b;
    } else {
      assert (a + b)[0] == a[0] && (a + b)[1..] == a[1..] + b;
      var r := ExecStmt(a[0], fuel, st);
      if r.Halted? {
        ExecAppend(a[1..], b, fuel, r.cfg);
      }
    }
  }

  /** The emitted program behaves as the BrainFuck program it was translated
      from, whenever that program is well nested and its input has no byte
      255. */
  lemma TranslationPreservesBehaviour(code: seq<char>, fuel: nat, st: Cfg)
    requires Balanced(code) && NoByte255(st.input)
    ensures Exec(Translate(code, 0).prog, fuel, st) == Run(code, fuel, st)
  {
    Preserved(code, 0, |code|, fuel, st);
  }

  /** Byte 255 read by `,` is taken for end of input by the emitted code, which
      keeps the cell, while the BrainFuck program stores it. */
  lemma Byte255ReadAsEndOfInput()
    ensures var st := Cfg([0], 0, [255], []);
            Exec(Translate(",", 0).prog, 0, st) == Halted(Cfg([0], 0, [], [])) &&
            Run(",", 0, st) == Halted(Cfg([255], 0, [], []))
  {
    var st := Cfg([0], 0, [255], []);
    assert Translate(",", 0).prog == [Input] by {
      assert Translate(",", 1).prog == [];
    }
    ExecCons(Input, [], 0, st);
    assert [255][1..] == [];
    assert AsSignedChar(255) == EOF;
  }

  // ---------------------------------------------------------------------
  // The `main` function of the generated file.

  /** A tape of `n` zero cells. */
  function Zeros(n: nat): (t: seq<Byte>)
    ensures |t| == n && forall k :: 0 <= k < n ==> t[k] == 0
  {
    if n == 0 then [] else Zeros(n - 1) + [0]
  }

  /** `main` as written: the tape holds whatever `malloc` returned (`init`),
      and `free(tape)` is handed the pointer the statements moved, which is
      defined only when it is back on the first cell. */
  function MainAsWritten(code: seq<char>, init: seq<Byte>, input: seq<Byte>, fuel: nat): Status
  {
    var r := Exec(Translate(code, 0).prog, fuel, Cfg(init, 0, input, []));
    if r.Halted? && r.cfg.ptr != 0 then Fault else r
  }

  /** `main` as evidently intended: a zeroed tape of `tapesize` cells, freed
      through the pointer `malloc` returned. */
  function MainIntended(code: seq<char>, tapesize: nat, input: seq<Byte>, fuel: nat): Status
  {
    Exec(Translate(code, 0).prog, fuel, Cfg(Zeros(tapesize), 0, input, []))
  }

  /** With a zeroed tape and the original pointer freed, the generated `main`
      runs the BrainFuck program on a tape of `tapesize` zero cells. */
  lemma MainIntendedRunsProgram(code: seq<char>, tapesize: nat, input: seq<Byte>, fuel: nat)
    requires Balanced(code) && NoByte255(input)
    ensures MainIntended(code, tapesize, input, fuel) == Run(code, fuel, Cfg(Zeros(tapesize), 0, input, []))
  {
    TranslationPreservesBehaviour(code, fuel, Cfg(Zeros(tapesize), 0, input, []));
  }

  /** `>` leaves the pointer on the second cell, and `free(tape)` then
      receives a pointer `malloc` never returned. */
  lemma FreeOfMovedPointer()
    ensures MainAsWritten(">", [0, 0], [], 0) == Fault
    ensures MainIntended(">", 2, [], 0) == Halted(Cfg([0, 0], 1, [], []))
    ensures Run(">", 0, Cfg(Zeros(2), 0, [], [])) == Halted(Cfg([0, 0], 1, [], []))
  {
    var st := Cfg([0, 0], 0, [], []);
    var moved := Cfg([0, 0], 1, [], []);
    assert Translate(">", 0).prog == [MoveRight(1)] by {
      assert RunLength(">", 0, '>') == 1;
      assert Translate(">", 1).prog == [];
    }
    assert Zeros(2) == [0, 0];
    assert Exec([MoveRight(1)], 0, st) == Halted(moved) by {
      ExecCons(MoveRight(1), [], 0, st);
      assert ExecStmt(MoveRight(1), 0, st) == Halted(moved);
    }
    assert Run(">", 0, st) == Halted(moved) by {
      assert Step('>', st) == Halted(moved);
      assert RunSpan(">", 1, 1, 0, moved) == Halted(moved);
    }
  }

  /** `.` on a fresh tape writes whatever byte `malloc` left in the first cell,
      where the BrainFuck program writes 0. */
  lemma UninitialisedTape()
    ensures MainAsWritten(".", [7], [], 0) == Halted(Cfg([7], 0, [], [7]))
    ensures MainIntended(".", 1, [], 0) == Halted(Cfg([0], 0, [], [0]))
    ensures Run(".", 0, Cfg(Zeros(1), 0, [], [])) == Halted(Cfg([0], 0, [], [0]))
  {
    assert Translate(".", 0).prog == [Output] by {
      assert Translate(".", 1).prog == [];
    }
    assert Zeros(1) == [0];
    ExecCons(Output, [], 0, Cfg([7], 0, [], []));
    ExecCons(Output, [], 0, Cfg([0], 0, [], []));
  }
}
