/** The C statements the translator emits, one per line, and how they are
    rendered with indentation. */
module Target {
  import opened Text
  import opened Brackets

  /** One emitted C statement. The magnitude of a weighted statement is the
      length of the run it replaces and so at least one. */
  datatype Stmt =
    | AddCell(n: nat)         // (*tape)+=n;
    | SubCell(n: nat)         // (*tape)-=n;
    | MoveRight(n: nat)       // tape+=n;
    | MoveLeft(n: nat)        // tape-=n;
    | Output                  // printf("%c", *tape);
    | Input                   // if ((c=getchar()) != EOF) *tape = c;
    | Loop(body: seq<Stmt>)   // while(*tape) { body }

  const WhileHeader: string := "while(*tape) {"
  const BlockEnd: string := "}"
  const OutputText: string := "printf(\"%c\", *tape);"
  const InputText: string := "if ((c=getchar()) != EOF) *tape = c;"

  /** The text of a one-line statement, as its `fprintf` format renders it. */
  function StatementText(s: Stmt): (t: string)
    requires !s.Loop?
    ensures |t| > 0 && t[0] != ' '
    ensures t != WhileHeader && t != BlockEnd
  {
    match s
    case AddCell(n) => "(*tape)+=" + NatToDecimal(n) + ";"
    case SubCell(n) => "(*tape)-=" + NatToDecimal(n) + ";"
    case MoveRight(n) => "tape+=" + NatToDecimal(n) + ";"
    case MoveLeft(n) => "tape-=" + NatToDecimal(n) + ";"
    case Output => OutputText
    case Input => InputText
  }

  /** The lines emitted for a statement list at indentation depth `ind`:
      a loop opens at `ind`, its body is one level deeper, and it closes at
      `ind` again. */
  function Render(prog: seq<Stmt>, ind: int): seq<string>
    decreases prog
  {
    if prog == [] then []
    else RenderStmt(prog[0], ind) + Render(prog[1..], ind)
  }

  function RenderStmt(s: Stmt, ind: int): seq<string>
    decreases s
  {
    match s
    case Loop(body) =>
      [Indentation(ind) + WhileHeader] + Render(body, ind + 1) + [Indentation(ind) + BlockEnd]
    case _ => [Indentation(ind) + StatementText(s)]
  }

  lemma {:induction false} RenderAppend(a: seq<Stmt>, b: seq<Stmt>, ind: int)
    ensures Render(a + b, ind) == Render(a, ind) + Render(b, ind)
    decreases a
  {
    if a == [] {
      assert a + b == b;
    } else {
      assert (a + b)[1..] == a[1..] + b;
      RenderAppend(a[1..], b, ind);
    }
  }

  lemma RenderCons(s: Stmt, rest: seq<Stmt>, ind: int)
    ensures Render([s] + rest, ind) == RenderStmt(s, ind) + Render(rest, ind)
  {
    assert ([s] + rest)[0] == s && ([s] + rest)[1..] == rest;
  }

  // ---------------------------------------------------------------------
  // Reading the emitted lines back: indentation and brace structure.

  /** Number of leading spaces of a line. */
  function LeadingSpaces(line: string): nat
  {
    if line != [] && line[0] == ' ' then 1 + LeadingSpaces(line[1..]) else 0
  }

  /** A line without its leading spaces. */
  function StripIndent(line: string): string
  {
    if line != [] && line[0] == ' ' then StripIndent(line[1..]) else line
  }

  lemma {:induction false} IndentedLine(d: int, t: string)
    requires |t| > 0 && t[0] != ' '
    ensures LeadingSpaces(Indentation(d) + t) == 4 * (if d < 0 then 0 else d)
    ensures StripIndent(Indentation(d) + t) == t
  {
    var ws := Indentation(d);
    var k := 0;
    while k < |ws|
      invariant 0 <= k <= |ws|
      invariant LeadingSpaces(ws + t) == k + LeadingSpaces(ws[k..] + t)
      invariant StripIndent(ws + t) == StripIndent(ws[k..] + t)
    {
      assert (ws[k..] + t)[1..] == ws[k + 1..] + t;
      k := k + 1;
    }
    assert ws[k..] + t == t;
  }

  /** The indentation of every line equals four spaces per enclosing
      `while` block, for a block of lines that starts at nesting depth `d` and
      leaves it at depth `e`: a `}` line sits at the depth of the block it
      closes, every other line at the current depth. */
  predicate IndentFollowsNesting(lines: seq<string>, d: int, e: int)
  {
    if lines == [] then d == e && d >= 0
    else
      var t := StripIndent(lines[0]);
      var sp := LeadingSpaces(lines[0]);
      if t == BlockEnd then
        d >= 1 && sp == 4 * (d - 1) && IndentFollowsNesting(lines[1..], d - 1, e)
      else
        d >= 0 && sp == 4 * d && IndentFollowsNesting(lines[1..], if t == WhileHeader then d + 1 else d, e)
  }

  lemma {:induction false} IndentToAppend(a: seq<string>, b: seq<string>, d: int, e: int, f: int)
    requires IndentFollowsNesting(a, d, e) && IndentFollowsNesting(b, e, f)
    ensures IndentFollowsNesting(a + b, d, f)
    decreases a
  {
    if a != [] {
      assert (a + b)[0] == a[0] && (a + b)[1..] == a[1..] + b;
      var t := StripIndent(a[0]);
      IndentToAppend(a[1..], b, if t == BlockEnd then d - 1 else if t == WhileHeader then d + 1 else d, e, f);
    } else {
      assert a + b == b;
    }
  }

  /** Every rendered line is indented by exactly four spaces per enclosing
      block, and the rendering of a statement list ends at the depth it
      started at: each `while(*tape) {` is closed by a `}` at its own depth. */
  lemma {:induction false} RenderIndentation(prog: seq<Stmt>, ind: int)
    requires ind >= 0
    ensures IndentFollowsNesting(Render(prog, ind), ind, ind)
    decreases prog
  {
    if prog != [] {
      RenderStmtIndentation(prog[0], ind);
      RenderIndentation(prog[1..], ind);
      IndentToAppend(RenderStmt(prog[0], ind), Render(prog[1..], ind), ind, ind, ind);
    }
  }

  lemma {:induction false} RenderStmtIndentation(s: Stmt, ind: int)
    requires ind >= 0
    ensures IndentFollowsNesting(RenderStmt(s, ind), ind, ind)
    decreases s
  {
    match s
    case Loop(body) =>
      var open := Indentation(ind) + WhileHeader;
      var close := Indentation(ind) + BlockEnd;
      IndentedLine(ind, WhileHeader);
      IndentedLine(ind, BlockEnd);
      RenderIndentation(body, ind + 1);
      assert IndentFollowsNesting([close], ind + 1, ind) by {
        assert [close][1..] == [];
      }
      IndentToAppend(Render(body, ind + 1), [close], ind + 1, ind + 1, ind);
      assert IndentFollowsNesting([open] + (Render(body, ind + 1) + [close]), ind, ind) by {
        assert ([open] + (Render(body, ind + 1) + [close]))[1..] == Render(body, ind + 1) + [close];
      }
      assert [open] + Render(body, ind + 1) + [close] == [open] + (Render(body, ind + 1) + [close]);
    case _ =>
      var line := Indentation(ind) + StatementText(s);
      IndentedLine(ind, StatementText(s));
      assert [line][1..] == [];
  }

  /** The loop structure read back from emitted lines: `[` for each
      `while(*tape) {` line, `]` for each `}` line. */
  function Skeleton(lines: seq<string>): (r: seq<char>)
    ensures |r| <= |lines|
  {
    if lines == [] then []
    else
      var t := StripIndent(lines[0]);
      (if t == WhileHeader then "[" else if t == BlockEnd then "]" else "") + Skeleton(lines[1..])
  }

  lemma {:induction false} SkeletonAppend(a: seq<string>, b: seq<string>)
    ensures Skeleton(a + b) == Skeleton(a) + Skeleton(b)
    decreases a
  {
    if a == [] {
      assert a + b == b;
    } else {
      assert (a + b)[0] == a[0] && (a + b)[1..] == a[1..] + b;
      SkeletonAppend(a[1..], b);
    }
  }

  /** The skeleton of a statement list: the brackets of the source it stands for. */
  function LoopSkeleton(prog: seq<Stmt>): seq<char>
    decreases prog
  {
    if prog == [] then []
    else StmtSkeleton(prog[0]) + LoopSkeleton(prog[1..])
  }

  function StmtSkeleton(s: Stmt): seq<char>
    decreases s
  {
    match s
    case Loop(body) => "[" + LoopSkeleton(body) + "]"
    case _ => ""
  }

  lemma {:induction false} LoopSkeletonAppend(a: seq<Stmt>, b: seq<Stmt>)
    ensures LoopSkeleton(a + b) == LoopSkeleton(a) + LoopSkeleton(b)
    decreases a
  {
    if a == [] {
      assert a + b == b;
    } else {
      assert (a + b)[1..] == a[1..] + b;
      LoopSkeletonAppend(a[1..], b);
    }
  }

  /** Reading the braces back from the rendered lines recovers exactly the loop
      structure of the statement list, at any depth. */
  lemma {:induction false} SkeletonOfRender(prog: seq<Stmt>, ind: int)
    ensures Skeleton(Render(prog, ind)) == LoopSkeleton(prog)
    decreases prog, 0
  {
    if prog != [] {
      SkeletonAppend(RenderStmt(prog[0], ind), Render(prog[1..], ind));
      SkeletonOfRender(prog[1..], ind);
      SkeletonOfRenderStmt(prog[0], ind);
    }
  }

  lemma {:induction false} SkeletonOfRenderStmt(s: Stmt, ind: int)
    ensures Skeleton(RenderStmt(s, ind)) == StmtSkeleton(s)
    decreases s, 0
  {
    if s.Loop? {
      SkeletonOfRenderLoop(s.body, ind);
    } else {
      var line := Indentation(ind) + StatementText(s);
      IndentedLine(ind, StatementText(s));
      assert [line][1..] == [];
    }
  }

  lemma {:induction false} SkeletonOfRenderLoop(body: seq<Stmt>, ind: int)
    ensures Skeleton(RenderStmt(Loop(body), ind)) == StmtSkeleton(Loop(body))
    decreases body, 1
  {
    var open := [Indentation(ind) + WhileHeader];
    var close := [Indentation(ind) + BlockEnd];
    var inner := Render(body, ind + 1);
    assert Skeleton(open) == "[" by {
      SkeletonOfLine(ind, WhileHeader);
    }
    assert Skeleton(close) == "]" by {
      SkeletonOfLine(ind, BlockEnd);
    }
    assert Skeleton(inner) == LoopSkeleton(body) by {
      SkeletonOfRender(body, ind + 1);
    }
    assert Skeleton(open + inner + close) == Skeleton(open) + Skeleton(inner) + Skeleton(close) by {
      SkeletonAppend(open, inner);
      SkeletonAppend(open + inner, close);
    }
  }

  /** The skeleton of one indented line. */
  lemma SkeletonOfLine(ind: int, t: string)
    requires |t| > 0 && t[0] != ' '
    ensures Skeleton([Indentation(ind) + t]) == (if t == WhileHeader then "[" else if t == BlockEnd then "]" else "")
  {
    IndentedLine(ind, t);
    assert [Indentation(ind) + t][1..] == [];
  }

  lemma LoopSkeletonCons(s: Stmt, rest: seq<Stmt>)
    ensures LoopSkeleton([s] + rest) == StmtSkeleton(s) + LoopSkeleton(rest)
  {
    assert ([s] + rest)[0] == s && ([s] + rest)[1..] == rest;
  }

  lemma LoopSkeletonOfLoop(body: seq<Stmt>, rest: seq<Stmt>)
    ensures LoopSkeleton([Loop(body)] + rest) == "[" + (LoopSkeleton(body) + ("]" + LoopSkeleton(rest)))
  {
    LoopSkeletonCons(Loop(body), rest);
  }

  /** Any statement list has a well-nested loop skeleton. */
  lemma {:induction false} LoopSkeletonBalanced(prog: seq<Stmt>)
    ensures Balanced(LoopSkeleton(prog))
    decreases prog
  {
    if prog != [] {
      LoopSkeletonAppend([prog[0]], prog[1..]);
      assert [prog[0]] + prog[1..] == prog;
      assert LoopSkeleton([prog[0]]) == StmtSkeleton(prog[0]) by {
        assert [prog[0]][1..] == [];
      }
      LoopSkeletonBalanced(prog[1..]);
      StmtSkeletonBalanced(prog[0]);
      BalancedConcat(StmtSkeleton(prog[0]), LoopSkeleton(prog[1..]));
    }
  }

  lemma {:induction false} StmtSkeletonBalanced(s: Stmt)
    ensures Balanced(StmtSkeleton(s))
    decreases s
  {
    if s.Loop? {
      LoopSkeletonBalanced(s.body);
      BalancedWrap(LoopSkeleton(s.body));
    }
  }

  /** The emitted `while` and `}` lines are well nested for every statement list. */
  lemma RenderBalanced(prog: seq<Stmt>, ind: int)
    ensures Balanced(Skeleton(Render(prog, ind)))
  {
    SkeletonOfRender(prog, ind);
    LoopSkeletonBalanced(prog);
  }
}
