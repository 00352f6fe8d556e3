/** Reading the emitted lines back into statements. Parsing the lines
    `compile_code` writes gives back the statements they render, so the
    rendering loses nothing. Together with the expansion of statements into
    instructions, the body of the generated file decompiles to the
    instructions of the program. */
module Reading {
  import opened Text
  import opened Brackets
  import opened Target
  import opened Translator
  import opened Expansion
  import opened Program

  datatype Option<T> = None | Some(value: T)

  const AddPrefix: string := "(*tape)+="
  const SubPrefix: string := "(*tape)-="
  const RightPrefix: string := "tape+="
  const LeftPrefix: string := "tape-="

  /** The magnitude in a line of the form `prefix`, decimal digits, `;`. */
  function ParseWeighted(t: string, prefix: string): (r: Option<nat>)
  {
    if |t| >= |prefix| + 2 && t[..|prefix|] == prefix && t[|t| - 1] == ';' then
      var digits := t[|prefix|..|t| - 1];
      if forall k :: 0 <= k < |digits| ==> IsDigit(digits[k]) then Some(DecimalValue(digits)) else None
    else None
  }

  /** The statement a line's text stands for, if any. */
  function ParseStatement(t: string): Option<Stmt>
  {
    if t == OutputText then Some(Output)
    else if t == InputText then Some(Input)
    else
      var add := ParseWeighted(t, AddPrefix);
      var sub := ParseWeighted(t, SubPrefix);
      var right := ParseWeighted(t, RightPrefix);
      var left := ParseWeighted(t, LeftPrefix);
      if add.Some? then Some(AddCell(add.value))
      else if sub.Some? then Some(SubCell(sub.value))
      else if right.Some? then Some(MoveRight(right.value))
      else if left.Some? then Some(MoveLeft(left.value))
      else None
  }

  /** Reads statements up to a `}` line that closes nothing opened here, or to
      the end. A `while(*tape) {` line opens a loop whose body is read up to
      its `}` line. Returns the statements and the lines left over. */
  function ParseLines(lines: seq<string>): (r: Option<(seq<Stmt>, seq<string>)>)
    ensures r.Some? ==> |r.value.1| <= |lines|
    decreases |lines|
  {
    if lines == [] then Some(([], []))
    else
      var t := StripIndent(lines[0]);
      if t == BlockEnd then Some(([], lines))
      else if t == WhileHeader then
        var inner := ParseLines(lines[1..]);
        if inner.None? then None
        else
          var rest := inner.value.1;
          if rest == [] || StripIndent(rest[0]) != BlockEnd then None
          else
            var after := ParseLines(rest[1..]);
            if after.None? then None
            else Some(([Loop(inner.value.0)] + after.value.0, after.value.1))
      else
        var s := ParseStatement(t);
        var after := ParseLines(lines[1..]);
        if s.None? || after.None? then None
        else Some(([s.value] + after.value.0, after.value.1))
  }

  /** The text of a weighted statement reads back to its magnitude. */
  lemma WeightedRoundTrip(prefix: string, n: nat)
    ensures ParseWeighted(prefix + NatToDecimal(n) + ";", prefix) == Some(n)
  {
    var d := NatToDecimal(n);
    var t := prefix + d + ";";
    assert t[..|prefix|] == prefix;
    assert t[|prefix|..|t| - 1] == d;
    DecimalRoundTrip(n);
  }

  /** A line that does not start with `prefix` is not read as its statement. */
  lemma WeightedMismatch(t: string, prefix: string, k: nat)
    requires k < |prefix| && k < |t| && t[k] != prefix[k]
    ensures ParseWeighted(t, prefix) == None
  {
    if |t| >= |prefix| + 2 {
      assert t[..|prefix|][k] == t[k];
    }
  }

  /** Every one-line statement reads back from its text. */
  lemma StatementRoundTrip(s: Stmt)
    requires !s.Loop?
    ensures ParseStatement(StatementText(s)) == Some(s)
  {
    if s.Output? || s.Input? {
      assert InputText[0] == 'i' && OutputText[0] == 'p';
    } else {
      WeightedStatementRoundTrip(s);
    }
  }

  lemma WeightedStatementRoundTrip(s: Stmt)
    requires s.AddCell? || s.SubCell? || s.MoveRight? || s.MoveLeft?
    ensures ParseStatement(StatementText(s)) == Some(s)
  {
    var t := StatementText(s);
    assert t[0] != OutputText[0] && t[0] != InputText[0] by {
      assert t[0] == '(' || t[0] == 't';
      assert OutputText[0] == 'p' && InputText[0] == 'i';
    }
    if s.AddCell? {
      WeightedRoundTrip(AddPrefix, s.n);
    } else if s.SubCell? {
      WeightedRoundTrip(SubPrefix, s.n);
      WeightedMismatch(t, AddPrefix, 7);
    } else {
      WeightedMismatch(t, AddPrefix, 0);
      WeightedMismatch(t, SubPrefix, 0);
      if s.MoveRight? {
        WeightedRoundTrip(RightPrefix, s.n);
      } else {
        WeightedRoundTrip(LeftPrefix, s.n);
        WeightedMismatch(t, RightPrefix, 4);
      }
    }
  }

  /** Parsing the rendering of a statement list, followed by lines that start
      with a `}` line or by nothing, gives back the statement list and exactly
      those following lines. */
  lemma {:induction false} ParseRender(prog: seq<Stmt>, ind: int, tail: seq<string>)
    requires tail == [] || StripIndent(tail[0]) == BlockEnd
    ensures ParseLines(Render(prog, ind) + tail) == Some((prog, tail))
    decreases prog, 0
  {
    if prog == [] {
      assert Render(prog, ind) + tail == tail;
    } else {
      var s := prog[0];
      var later := Render(prog[1..], ind) + tail;
      ParseRender(prog[1..], ind, tail);
      assert prog == [s] + prog[1..];
      if s.Loop? {
        ParseLoop(s.body, ind, later, prog[1..], tail);
        assert Render(prog, ind) + tail == RenderStmt(s, ind) + later;
      } else {
        var lines := Render(prog, ind) + tail;
        var line := Indentation(ind) + StatementText(s);
        assert lines == [line] + later;
        assert lines[1..] == later;
        IndentedLine(ind, StatementText(s));
        StatementRoundTrip(s);
      }
    }
  }

  /** A rendered loop reads back as that loop, whatever well-read lines
      follow it. */
  lemma {:induction false} ParseLoop(body: seq<Stmt>, ind: int, later: seq<string>, more: seq<Stmt>, tail: seq<string>)
    requires ParseLines(later) == Some((more, tail))
    ensures ParseLines(RenderStmt(Loop(body), ind) + later) == Some(([Loop(body)] + more, tail))
    decreases body, 1
  {
    var open := Indentation(ind) + WhileHeader;
    var close := Indentation(ind) + BlockEnd;
    var closed := [close] + later;
    var lines := RenderStmt(Loop(body), ind) + later;
    assert StripIndent(open) == WhileHeader && StripIndent(close) == BlockEnd by {
      IndentedLine(ind, WhileHeader);
      IndentedLine(ind, BlockEnd);
    }
    assert lines[0] == open && lines[1..] == Render(body, ind + 1) + closed by {
      assert lines == [open] + (Render(body, ind + 1) + closed);
    }
    assert ParseLines(Render(body, ind + 1) + closed) == Some((body, closed)) by {
      ParseRender(body, ind + 1, closed);
    }
    assert closed[0] == close && closed[1..] == later;
  }

  /** The rendering of any statement list reads back as exactly that list. */
  lemma RenderReadsBack(prog: seq<Stmt>, ind: int)
    ensures ParseLines(Render(prog, ind)) == Some((prog, []))
  {
    ParseRender(prog, ind, []);
    assert Render(prog, ind) + [] == Render(prog, ind);
  }

  /** The lines `start_compilation` writes between the prologue and the
      epilogue read back as the statements of the translation; for a
      well-nested program, expanding those gives back its instructions. */
  lemma GeneratedDecompiles(code: seq<char>, tapesize: int)
    ensures var g := Generated(code, tapesize);
            |g| >= 9 && ParseLines(g[6..|g| - 3]) == Some((Translate(code, 0).prog, []))
    ensures var g := Generated(code, tapesize);
            Balanced(code) ==> |g| >= 9 && Expand(ParseLines(g[6..|g| - 3]).value.0) == Instructions(code)
  {
    var g := Generated(code, tapesize);
    assert g[6..|g| - 3] == Body(code);
    RenderReadsBack(Translate(code, 0).prog, 1);
    if Balanced(code) {
      BalancedRoundTrip(code);
    }
  }
}
