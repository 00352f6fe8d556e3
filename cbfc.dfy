/** The translator's procedures as the C program runs them: `indent`,
    `compile_code` and `start_compilation`. The output stream is the list of
    lines written so far; every `fprintf` below ends its text with a newline,
    so each call appends whole lines. */
module Cbfc {
  import opened Text
  import opened Brackets
  import opened Target
  import opened Translator
  import opened Program

  /** `indent`: writes `depth` indentation units and nothing else. */
  method Indent(depth: int) returns (s: string)
    ensures s == Indentation(depth)
  {
    s := "";
    var j := 0;
    while j < depth
      invariant 0 <= j <= (if depth < 0 then 0 else depth)
      invariant s == Indentation(j)
    {
      s := s + Unit;
      j := j + 1;
    }
    if depth < 0 {
      assert Indentation(depth) == "";
    }
  }

  /** The run-measuring loop `for (j = 0; *(code+i+j) == c; j++);`, which
      stops at the first different character or at the string's end. */
  method CountRun(code: seq<char>, i: nat, c: char) returns (j: nat)
    requires i <= |code|
    ensures j == RunLength(code, i, c)
  {
    j := 0;
    while i + j < |code| && code[i + j] == c
      invariant i + j <= |code|
      invariant forall k :: i <= k < i + j ==> code[k] == c
    {
      j := j + 1;
    }
    RunLengthUnique(code, i, c, j);
  }

  /** The lines of one `[` case, followed by the rest of the scan. */
  lemma RenderOpenStep(code: seq<char>, i: nat, ind: int, body: seq<string>, r: nat)
    requires i < |code| && code[i] == '['
    requires body == Render(Translate(code[i + 1..], 0).prog, ind + 1)
    requires r == Translate(code[i + 1..], 0).consumed
    ensures Render(Translate(code, i).prog, ind) ==
            [Indentation(ind) + WhileHeader] + body + [Indentation(ind) + BlockEnd]
            + Render(Translate(code, i + r + 2).prog, ind)
    ensures Translate(code, i).consumed == Translate(code, i + r + 2).consumed
  {
    var inner := Translate(code[i + 1..], 0);
    var rest := Translate(code, i + r + 2);
    assert Translate(code, i) == Outcome([Loop(inner.prog)] + rest.prog, rest.consumed);
    assert RenderStmt(Loop(inner.prog), ind) ==
           [Indentation(ind) + WhileHeader] + body + [Indentation(ind) + BlockEnd];
    RenderCons(Loop(inner.prog), rest.prog, ind);
  }

  /** One case of the `switch` in `compile_code` for a character that is not a
      bracket: a run, `.`, `,` or a comment. Returns the lines written and how
      far the scan index moves. */
  method CompileInstruction(code: seq<char>, i: nat, ind: int) returns (lines: seq<string>, width: nat)
    requires i < |code| && code[i] != '[' && code[i] != ']'
    ensures width == Width(code, i) && 1 <= width
    ensures Render(Translate(code, i).prog, ind) == lines + Render(Translate(code, i + width).prog, ind)
    ensures Translate(code, i).consumed == Translate(code, i + width).consumed
  {
    var c := code[i];
    lines, width := [], 1;
    if IsRunChar(c) {
      var pre := Indent(ind);
      width := CountRun(code, i, c);
      lines := [pre + StatementText(RunStmt(c, width))];
      assert lines == Render(Head(code, i), ind) by { RenderCons(RunStmt(c, width), [], ind); }
    } else if c == '.' {
      var pre := Indent(ind);
      lines := [pre + OutputText];
      assert lines == Render(Head(code, i), ind) by { RenderCons(Output, [], ind); }
    } else if c == ',' {
      var pre := Indent(ind);
      lines := [pre + InputText];
      assert lines == Render(Head(code, i), ind) by { RenderCons(Input, [], ind); }
    }
    assert Translate(code, i).prog == Head(code, i) + Translate(code, i + width).prog by {
      TranslateOther(code, i);
    }
    RenderAppend(Head(code, i), Translate(code, i + width).prog, ind);
  }

  /** The `[` case of the `switch` in `compile_code`: the `while` header at the
      current depth, the nested invocation on the string after the `[` one
      level deeper, and the closing brace at the current depth. Returns the
      lines written and the index the scan continues from. */
  method CompileLoop(code: seq<char>, i: nat, ind: int) returns (lines: seq<string>, next: nat)
    requires i < |code| && code[i] == '['
    ensures i + 2 <= next
    ensures Render(Translate(code, i).prog, ind) == lines + Render(Translate(code, next).prog, ind)
    ensures Translate(code, i).consumed == Translate(code, next).consumed
    decreases |code|, 0
  {
    var pre := Indent(ind);
    lines := [pre + WhileHeader];
    var body, r := CompileCode(code[i + 1..], ind + 1);
    lines := lines + body;
    pre := Indent(ind);
    lines := lines + [pre + BlockEnd];
    next := i + r + 2;
    RenderOpenStep(code, i, ind, body, r);
  }

  /** The `switch` in the body of `compile_code` for any character but `]`:
      returns the lines its case writes and the index the scan continues
      from. */
  method CompileStep(code: seq<char>, i: nat, ind: int) returns (lines: seq<string>, next: nat)
    requires i < |code| && code[i] != ']'
    ensures i < next
    ensures Render(Translate(code, i).prog, ind) == lines + Render(Translate(code, next).prog, ind)
    ensures Translate(code, i).consumed == Translate(code, next).consumed
    decreases |code|, 1
  {
    if code[i] == '[' {
      lines, next := CompileLoop(code, i, ind);
    } else {
      var width;
      lines, width := CompileInstruction(code, i, ind);
      next := i + width;
    }
  }

  /** `compile_code`: translates `code` at indentation depth `ind`, returning
      the lines written and the final value of the scan index. The `]` case
      only sets `break_flag`, which ends the loop with `i` on that `]`; that
      exit is part of the loop condition here. */
  method CompileCode(code: seq<char>, ind: int) returns (out: seq<string>, consumed: nat)
    ensures out == Render(Translate(code, 0).prog, ind)
    ensures consumed == Translate(code, 0).consumed
    decreases |code|, 2
  {
    out := [];
    var i: nat := 0;
    ghost var total := Translate(code, 0);
    ghost var all := Render(total.prog, ind);
    while i < |code| && code[i] != ']'
      invariant all == out + Render(Translate(code, i).prog, ind)
      invariant Translate(code, i).consumed == total.consumed
      decreases |code| - i
    {
      var lines, next := CompileStep(code, i, ind);
      out := out + lines;
      i := next;
    }
    assert Translate(code, i) == Outcome([], i) by {
      TranslateStop(code, i);
    }
    assert out + Render([], ind) == out;
    consumed := i;
  }

  /** `start_compilation`: the prologue, the top-level `compile_code` at
      depth one (its returned offset is discarded) and the epilogue. */
  method StartCompilation(code: seq<char>, tapesize: int) returns (out: seq<string>)
    ensures out == Generated(code, tapesize)
  {
    out := ["#include <stdio.h>", "#include <stdlib.h>"];
    out := out + [DefinePrefix + IntToDecimal(tapesize)];
    out := out + ["int main() {"];
    var pre := Indent(1);
    out := out + [pre + TapeDecl];
    pre := Indent(1);
    out := out + [pre + CharDecl];
    assert out == Prologue(tapesize);
    var body, _ := CompileCode(code, 1);
    out := out + body;
    pre := Indent(1);
    out := out + [pre + FreeTape];
    pre := Indent(1);
    out := out + [pre + ReturnZero];
    out := out + ["}"];
  }
}
