/** What `compile_code` computes, as a function: the statements it emits for
    the instruction string handed to it and the scan offset it returns.
    `Translate(code, i)` is the rest of one invocation from the moment its
    scan index holds `i`. */
module Translator {
  import opened Brackets
  import opened Text
  import opened Target

  /** The four instructions whose runs are collapsed. */
  predicate IsRunChar(c: char)
  {
    c == '+' || c == '-' || c == '>' || c == '<'
  }

  /** The eight instructions; every other character is a comment. */
  predicate IsInstruction(c: char)
  {
    IsRunChar(c) || c == '.' || c == ',' || c == '[' || c == ']'
  }

  /** Length of the maximal run of `c` starting at `i`. */
  function RunLength(code: seq<char>, i: nat, c: char): (k: nat)
    requires i <= |code|
    ensures i + k <= |code|
    ensures forall j :: i <= j < i + k ==> code[j] == c
    ensures i + k == |code| || code[i + k] != c
    decreases |code| - i
  {
    if i < |code| && code[i] == c then 1 + RunLength(code, i + 1, c) else 0
  }

  /** A maximal run is determined by where it starts. */
  lemma RunLengthUnique(code: seq<char>, i: nat, c: char, k: nat)
    requires i + k <= |code|
    requires forall j :: i <= j < i + k ==> code[j] == c
    requires i + k == |code| || code[i + k] != c
    ensures RunLength(code, i, c) == k
  {
  }

  /** The weighted statement for a run of `k` copies of `c`. */
  function RunStmt(c: char, k: nat): Stmt
    requires IsRunChar(c)
  {
    if c == '+' then AddCell(k)
    else if c == '-' then SubCell(k)
    else if c == '>' then MoveRight(k)
    else MoveLeft(k)
  }

  /** Statements emitted, and the value of the scan index returned. */
  datatype Outcome = Outcome(prog: seq<Stmt>, consumed: nat)

  /** The scan of `compile_code` from index `i` of its string `code`:
      a run becomes one statement and the scan resumes after it; `.` and `,`
      become one statement each; `[` emits a loop whose body is the
      translation of the string after the `[`, and the scan resumes two places
      after the offset the nested translation returns; `]` ends the scan and
      returns its own index; anything else is skipped. */
  function Translate(code: seq<char>, i: nat): (r: Outcome)
    ensures r.consumed >= i
    decreases |code| - i, 1
  {
    if i >= |code| then Outcome([], i)
    else
      var c := code[i];
      if IsRunChar(c) then
        var k := RunLength(code, i, c);
        var rest := Translate(code, i + k);
        Outcome([RunStmt(c, k)] + rest.prog, rest.consumed)
      else if c == '.' then
        var rest := Translate(code, i + 1);
        Outcome([Output] + rest.prog, rest.consumed)
      else if c == ',' then
        var rest := Translate(code, i + 1);
        Outcome([Input] + rest.prog, rest.consumed)
      else if c == '[' then
        TranslateLoop(code, i)
      else if c == ']' then
        Outcome([], i)
      else
        Translate(code, i + 1)
  }

  /** The `[` case: a loop whose body is what the nested invocation on the
      string after the `[` emits; the outer scan resumes two places after the
      offset that invocation returns. */
  function TranslateLoop(code: seq<char>, i: nat): (r: Outcome)
    requires i < |code| && code[i] == '['
    ensures r.consumed >= i
    decreases |code| - i, 0
  {
    var inner := Translate(code[i + 1..], 0);
    var rest := Translate(code, i + inner.consumed + 2);
    Outcome([Loop(inner.prog)] + rest.prog, rest.consumed)
  }

  /** The nested invocation on `code + a` is the outer scan seen from `a`:
      the same statements, and an offset measured from `a`. */
  lemma {:induction false} TranslateShift(code: seq<char>, a: nat, x: nat)
    requires a <= |code|
    ensures Translate(code[a..], x).prog == Translate(code, a + x).prog
    ensures Translate(code[a..], x).consumed + a == Translate(code, a + x).consumed
    decreases |code| - a - x
  {
    var s := code[a..];
    if a + x < |code| {
      var c := code[a + x];
      assert s[x] == c;
      if IsRunChar(c) {
        var k := RunLength(code, a + x, c);
        RunLengthUnique(s, x, c, k);
        TranslateShift(code, a, x + k);
      } else if c == '[' {
        assert s[x + 1..] == code[a + x + 1..];
        var inner := Translate(code[a + x + 1..], 0);
        TranslateShift(code, a, x + inner.consumed + 2);
      } else if c != ']' {
        TranslateShift(code, a, x + 1);
      }
    }
  }

  /** How far the scan moves over a character that is not a bracket. */
  function Width(code: seq<char>, i: nat): (k: nat)
    requires i < |code| && code[i] != '[' && code[i] != ']'
    ensures 1 <= k && i + k <= |code|
    ensures forall j :: i <= j < i + k ==> code[j] != '[' && code[j] != ']'
    ensures i + k == |code| || code[i + k] != code[i] || !IsRunChar(code[i])
  {
    if IsRunChar(code[i]) then RunLength(code, i, code[i]) else 1
  }

  /** What is emitted for a character that is not a bracket. */
  function Head(code: seq<char>, i: nat): seq<Stmt>
    requires i < |code| && code[i] != '[' && code[i] != ']'
  {
    var c := code[i];
    if IsRunChar(c) then [RunStmt(c, Width(code, i))]
    else if c == '.' then [Output]
    else if c == ',' then [Input]
    else []
  }

  lemma TranslateOther(code: seq<char>, i: nat)
    requires i < |code| && code[i] != '[' && code[i] != ']'
    ensures Translate(code, i).prog == Head(code, i) + Translate(code, i + Width(code, i)).prog
    ensures Translate(code, i).consumed == Translate(code, i + Width(code, i)).consumed
  {
  }

  /** At the end of the string or at a `]`, the scan emits nothing and
      returns where it stands. */
  lemma TranslateStop(code: seq<char>, i: nat)
    requires i >= |code| || code[i] == ']'
    ensures Translate(code, i) == Outcome([], i)
  {
  }

  /** The `[` case in the terms of the outer scan: the body is the scan from
      just after the `[`, and the scan resumes one place after where the body
      stopped. */
  lemma TranslateOpen(code: seq<char>, i: nat)
    requires i < |code| && code[i] == '['
    ensures var body := Translate(code, i + 1);
            Translate(code, i).prog == [Loop(body.prog)] + Translate(code, body.consumed + 1).prog &&
            Translate(code, i).consumed == Translate(code, body.consumed + 1).consumed
  {
    TranslateShift(code, i + 1, 0);
  }

  /** The offset `compile_code` returns. Over a stretch that never closes more
      brackets than it opened: when the stretch ends at a `]` that closes the
      level it started at, the offset is that `]`'s index; when it runs to the
      end of the string, the offset is the length of the string plus one for
      every `[` still open there. */
  lemma {:induction false} ConsumedLength(code: seq<char>, i: nat, m: nat)
    requires i <= m <= |code|
    requires NeverBelowZero(code, i, m)
    requires m == |code| || (code[m] == ']' && Level(code, i, m) == 0)
    ensures Translate(code, i).consumed == if m == |code| then |code| + Level(code, i, m) else m
    decreases |code| - i
  {
    if i == m {
      return;
    }
    var c := code[i];
    assert Level(code, i, i + 1) == Delta(c) by { assert Level(code, i + 1, i + 1) == 0; }
    if c == ']' {
      assert false;
    } else if c == '[' {
      var found, p := OpenBracketSplit(code, i, m);
      TranslateOpen(code, i);
      if found {
        ConsumedLength(code, i + 1, p);
        ConsumedLength(code, p + 1, m);
      } else {
        ConsumedLength(code, i + 1, m);
        LevelSplit(code, i, i + 1, m);
      }
    } else {
      var k := if IsRunChar(c) then RunLength(code, i, c) else 1;
      assert i + k <= m;
      LevelWithoutBrackets(code, i, i + k);
      NeverBelowZeroAfter(code, i, i + k, m);
      ConsumedLength(code, i + k, m);
    }
  }

  /** On a well-nested program the top-level invocation returns the length
      of the program. */
  lemma BalancedConsumesAll(code: seq<char>)
    requires Balanced(code)
    ensures Translate(code, 0).consumed == |code|
  {
    ConsumedLength(code, 0, |code|);
  }

  /** In a well-nested stretch, the nested invocation for a `[` returns the
      offset of the matching `]` within the string after the `[`: the outer
      index `i + r + 1` lands on that `]`, which the loop increment then
      steps over. */
  lemma OpenResumesAtMatch(code: seq<char>, i: nat, m: nat)
    requires i < m <= |code| && code[i] == '['
    requires BalancedSpan(code, i, m)
    ensures var r := Translate(code[i + 1..], 0).consumed;
            i + r + 1 < m && code[i + r + 1] == ']' && BalancedSpan(code, i + 1, i + r + 1)
  {
    var found, p := OpenBracketSplit(code, i, m);
    assert found;
    ConsumedLength(code, i + 1, p);
    TranslateShift(code, i + 1, 0);
  }

  /** `.` and `,` each write exactly one line, `printf("%c", *tape);` or
      `if ((c=getchar()) != EOF) *tape = c;` at the current depth, and move the
      scan by one. */
  lemma InputOutputLine(code: seq<char>, i: nat, ind: int)
    requires i < |code| && (code[i] == '.' || code[i] == ',')
    ensures Render(Translate(code, i).prog, ind) ==
            [Indentation(ind) + (if code[i] == '.' then OutputText else InputText)]
            + Render(Translate(code, i + 1).prog, ind)
    ensures Translate(code, i).consumed == Translate(code, i + 1).consumed
  {
    RenderCons(if code[i] == '.' then Output else Input, Translate(code, i + 1).prog, ind);
  }

  /** The translation of a stretch that ends at its closing `]` (or at the end
      of the string) depends only on the stretch itself. */
  lemma {:induction false} TranslateLocal(code: seq<char>, i: nat, m: nat)
    requires i <= m <= |code|
    requires NeverBelowZero(code, i, m)
    requires m == |code| || (code[m] == ']' && Level(code, i, m) == 0)
    ensures Translate(code, i).prog == Translate(code[..m], i).prog
    decreases |code| - i, 1
  {
    var cut := code[..m];
    if m == |code| {
      assert cut == code;
    } else if i < m {
      var c := code[i];
      assert cut[i] == c;
      assert Level(code, i, i + 1) == Delta(c) by { assert Level(code, i + 1, i + 1) == 0; }
      if c == ']' {
        assert false;
      } else if c == '[' {
        TranslateLocalOpen(code, i, m);
      } else {
        var k := Width(code, i);
        assert i + k <= m;
        if IsRunChar(c) {
          RunLengthUnique(cut, i, c, k);
        }
        assert Width(cut, i) == k && Head(cut, i) == Head(code, i);
        TranslateOther(code, i);
        TranslateOther(cut, i);
        LevelWithoutBrackets(code, i, i + k);
        NeverBelowZeroAfter(code, i, i + k, m);
        TranslateLocal(code, i + k, m);
      }
    }
  }

  lemma {:induction false} TranslateLocalOpen(code: seq<char>, i: nat, m: nat)
    requires i < m < |code| && code[i] == '['
    requires NeverBelowZero(code, i, m)
    requires code[m] == ']' && Level(code, i, m) == 0
    ensures Translate(code, i).prog == Translate(code[..m], i).prog
    decreases |code| - i, 0
  {
    var cut := code[..m];
    var found, p := OpenBracketSplit(code, i, m);
    assert found;
    TranslateOpen(code, i);
    TranslateOpen(cut, i);
    // both nested scans stop at the matching `]` ...
    ConsumedLength(code, i + 1, p);
    NeverBelowZeroSlice(code, 0, m, i + 1, p);
    LevelSlice(code, 0, m, i + 1, p);
    assert code[0..m] == cut;
    ConsumedLength(cut, i + 1, p);
    // ... with the same body ...
    TranslateLocal(code, i + 1, p);
    TranslateLocal(cut, i + 1, p);
    assert cut[..p] == code[..p];
    // ... and both resume after it
    TranslateLocal(code, p + 1, m);
  }

  /** A `]` with no open `[` before it ends the top-level translation: the
      offset returned is its index, and nothing after it is translated. */
  lemma StrayCloseTruncates(code: seq<char>, m: nat)
    requires m < |code| && code[m] == ']'
    requires BalancedSpan(code, 0, m)
    ensures Translate(code, 0).consumed == m
    ensures Translate(code, 0).prog == Translate(code[..m], 0).prog
  {
    ConsumedLength(code, 0, m);
    TranslateLocal(code, 0, m);
  }

  /** A `[` never closed still gets its loop, closed at the end of the
      string, and the returned offset overshoots the length of the string by
      the number of brackets left open. */
  lemma UnclosedOvershoots(code: seq<char>)
    requires NeverBelowZero(code, 0, |code|) && Level(code, 0, |code|) > 0
    ensures Translate(code, 0).consumed == |code| + Level(code, 0, |code|)
    ensures Translate(code, 0).consumed > |code|
  {
    ConsumedLength(code, 0, |code|);
  }

  /** The loop structure of the emitted statements is exactly the bracket
      structure of the well-nested source stretch they come from. */
  lemma {:induction false} TranslateSkeleton(code: seq<char>, i: nat, m: nat)
    requires i <= m <= |code|
    requires BalancedSpan(code, i, m)
    requires m == |code| || code[m] == ']'
    ensures LoopSkeleton(Translate(code, i).prog) == BracketsOf(code[i..m])
    decreases |code| - i, 1
  {
    if i == m {
      TranslateStop(code, i);
      assert code[i..m] == [];
    } else {
      var c := code[i];
      assert Level(code, i, i + 1) == Delta(c) by { assert Level(code, i + 1, i + 1) == 0; }
      if c == ']' {
        assert false;
      } else if c == '[' {
        TranslateSkeletonOpen(code, i, m);
      } else {
        TranslateSkeletonOther(code, i, m);
      }
    }
  }

  lemma {:induction false} TranslateSkeletonOther(code: seq<char>, i: nat, m: nat)
    requires i < m <= |code| && code[i] != '[' && code[i] != ']'
    requires BalancedSpan(code, i, m)
    requires m == |code| || code[m] == ']'
    ensures LoopSkeleton(Translate(code, i).prog) == BracketsOf(code[i..m])
    decreases |code| - i, 0
  {
    var k := Width(code, i);
    var head := Head(code, i);
    var rest := Translate(code, i + k).prog;
    assert i + k <= m;
    assert LoopSkeleton(rest) == BracketsOf(code[i..m]) by {
      LevelWithoutBrackets(code, i, i + k);
      NeverBelowZeroAfter(code, i, i + k, m);
      BracketsOfSkip(code, i, i + k, m);
      TranslateSkeleton(code, i + k, m);
    }
    assert LoopSkeleton(head + rest) == LoopSkeleton(rest) by {
      LoopSkeletonAppend(head, rest);
      assert LoopSkeleton(head) == [] by {
        if head != [] { assert head[1..] == []; }
      }
    }
    assert Translate(code, i).prog == head + rest by {
      TranslateOther(code, i);
    }
  }

  lemma {:induction false} TranslateSkeletonOpen(code: seq<char>, i: nat, m: nat)
    requires i < m <= |code| && code[i] == '['
    requires BalancedSpan(code, i, m)
    requires m == |code| || code[m] == ']'
    ensures LoopSkeleton(Translate(code, i).prog) == BracketsOf(code[i..m])
    decreases |code| - i, 0
  {
    var found, p := OpenBracketSplit(code, i, m);
    assert found;
    var inner := Translate(code, i + 1).prog;
    var rest := Translate(code, p + 1).prog;
    assert Translate(code, i).prog == [Loop(inner)] + rest by {
      TranslateOpen(code, i);
      ConsumedLength(code, i + 1, p);
    }
    assert LoopSkeleton(inner) == BracketsOf(code[i + 1..p]) by {
      TranslateSkeleton(code, i + 1, p);
    }
    assert LoopSkeleton(rest) == BracketsOf(code[p + 1..m]) by {
      TranslateSkeleton(code, p + 1, m);
    }
    BracketsOfLoop(code, i, p, m);
    LoopSkeletonOfLoop(inner, rest);
  }

  /** A maximal run of `k` identical `+`, `-`, `>` or `<` becomes exactly one
      statement of magnitude `k`, and the scan resumes right after the run. */
  lemma RunCollapsed(code: seq<char>, i: nat, k: nat)
    requires i + k <= |code| && k >= 1
    requires IsRunChar(code[i])
    requires forall j :: i <= j < i + k ==> code[j] == code[i]
    requires i + k == |code| || code[i + k] != code[i]
    ensures Translate(code, i).prog == [RunStmt(code[i], k)] + Translate(code, i + k).prog
    ensures Translate(code, i).consumed == Translate(code, i + k).consumed
  {
    RunLengthUnique(code, i, code[i], k);
  }

  /** Characters other than the eight instructions emit nothing: a stretch of
      them is skipped as if it were not there. */
  lemma {:induction false} CommentsSkipped(code: seq<char>, i: nat, j: nat)
    requires i <= j <= |code|
    requires forall k :: i <= k < j ==> !IsInstruction(code[k])
    ensures Translate(code, i) == Translate(code, j)
    decreases j - i
  {
    if i < j {
      CommentsSkipped(code, i + 1, j);
    }
  }
}
