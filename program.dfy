/** The whole C file `start_compilation` writes: a fixed prologue that
    declares the tape, the translated instructions inside `main` at depth one,
    and a fixed epilogue. */
module Program {
  import opened Text
  import opened Brackets
  import opened Target
  import opened Translator

  const DefinePrefix: string := "#define tape_size "
  // written as three pieces so that the verifier can index into it
  const TapeDecl: string := "unsigned char " + "*tape=malloc(" + "tape_size*sizeof(char));"
  const CharDecl: string := "char c;"
  const FreeTape: string := "free(tape);"
  const ReturnZero: string := "return 0;"

  /** The lines before the translated instructions; the tape size is written
      with `%d`. */
  function Prologue(tapesize: int): seq<string>
  {
    ["#include <stdio.h>",
     "#include <stdlib.h>",
     DefinePrefix + IntToDecimal(tapesize),
     "int main() {",
     Indentation(1) + TapeDecl,
     Indentation(1) + CharDecl]
  }

  /** The lines after the translated instructions. */
  function Epilogue(): seq<string>
  {
    [Indentation(1) + FreeTape,
     Indentation(1) + ReturnZero,
     "}"]
  }

  /** The statements of `main` that come from the instruction string. */
  function Body(code: seq<char>): seq<string>
  {
    Render(Translate(code, 0).prog, 1)
  }

  /** The generated file, line by line. */
  function Generated(code: seq<char>, tapesize: int): seq<string>
  {
    Prologue(tapesize) + Body(code) + Epilogue()
  }

  /** The lines strictly inside `main`. */
  function MainBlock(code: seq<char>, tapesize: int): seq<string>
  {
    var g := Generated(code, tapesize);
    g[4..|g| - 1]
  }

  /** The file opens with the two includes, the tape-size macro and the
      header of `main`, and closes with the brace of `main`; every line in
      between is indented by four spaces per enclosing block, starting at one
      block deep, and each `while` opened inside `main` is closed inside it. */
  lemma GeneratedLayout(code: seq<char>, tapesize: int)
    ensures var g := Generated(code, tapesize);
            |g| == 9 + |Body(code)| &&
            g[0] == "#include <stdio.h>" && g[1] == "#include <stdlib.h>" &&
            g[3] == "int main() {" && g[|g| - 1] == "}" &&
            IndentFollowsNesting(MainBlock(code, tapesize), 1, 1)
  {
    var g := Generated(code, tapesize);
    var head := Prologue(tapesize)[4..];
    var tail := Epilogue()[..2];
    assert MainBlock(code, tapesize) == head + Body(code) + tail;
    RenderIndentation(Translate(code, 0).prog, 1);
    PrologueEpilogueInMain(tapesize);
    IndentToAppend(head, Body(code), 1, 1, 1);
    IndentToAppend(head + Body(code), tail, 1, 1, 1);
  }

  /** Two statements at depth one that neither open nor close a block, as
      the declarations of the prologue and the two statements of the
      epilogue are. */
  lemma PlainPair(a: string, b: string)
    requires |a| > 0 && a[0] != ' ' && a != WhileHeader && a != BlockEnd
    requires |b| > 0 && b[0] != ' ' && b != WhileHeader && b != BlockEnd
    ensures IndentFollowsNesting([Indentation(1) + a, Indentation(1) + b], 1, 1)
    ensures Skeleton([Indentation(1) + a, Indentation(1) + b]) == []
  {
    var lines := [Indentation(1) + a, Indentation(1) + b];
    IndentedLine(1, a);
    IndentedLine(1, b);
    assert lines[1..][1..] == [];
  }

  lemma PrologueEpilogueInMain(tapesize: int)
    ensures IndentFollowsNesting(Prologue(tapesize)[4..], 1, 1) && Skeleton(Prologue(tapesize)[4..]) == []
    ensures IndentFollowsNesting(Epilogue()[..2], 1, 1) && Skeleton(Epilogue()[..2]) == []
  {
    assert Prologue(tapesize)[4..] == [Indentation(1) + TapeDecl, Indentation(1) + CharDecl];
    assert Epilogue()[..2] == [Indentation(1) + FreeTape, Indentation(1) + ReturnZero];
    PlainPair(TapeDecl, CharDecl);
    PlainPair(FreeTape, ReturnZero);
  }

  /** The tape size can be read back from the `#define` line. */
  lemma TapeSizeReadBack(code: seq<char>, tapesize: int)
    ensures var line := Generated(code, tapesize)[2];
            var n := |DefinePrefix|;
            |line| > n && line[..n] == DefinePrefix &&
            (forall k :: (if line[n] == '-' then n + 1 else n) <= k < |line| ==> IsDigit(line[k])) &&
            SignedDecimalValue(line[n..]) == tapesize
  {
    var line := Generated(code, tapesize)[2];
    assert line == DefinePrefix + IntToDecimal(tapesize);
    assert line[|DefinePrefix|..] == IntToDecimal(tapesize);
    SignedDecimalRoundTrip(tapesize);
  }

  /** Reading the braces back from the lines inside `main`. */
  lemma MainSkeleton(code: seq<char>, tapesize: int)
    ensures Skeleton(MainBlock(code, tapesize)) == LoopSkeleton(Translate(code, 0).prog)
  {
    var head := Prologue(tapesize)[4..];
    var tail := Epilogue()[..2];
    assert MainBlock(code, tapesize) == (head + Body(code)) + tail;
    PrologueEpilogueInMain(tapesize);
    SkeletonAppend(head + Body(code), tail);
    SkeletonAppend(head, Body(code));
    SkeletonOfRender(Translate(code, 0).prog, 1);
  }

  /** The `while` and `}` lines inside `main` are always well nested; for a
      well-nested instruction string they are, in order, exactly its `[` and
      `]`. */
  lemma GeneratedNesting(code: seq<char>, tapesize: int)
    ensures Balanced(Skeleton(MainBlock(code, tapesize)))
    ensures Balanced(code) ==> Skeleton(MainBlock(code, tapesize)) == BracketsOf(code)
  {
    MainSkeleton(code, tapesize);
    LoopSkeletonBalanced(Translate(code, 0).prog);
    if Balanced(code) {
      TranslateSkeleton(code, 0, |code|);
      assert code[0..|code|] == code;
    }
  }
}
