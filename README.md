# cbfc — a verified model of the BrainFuck-to-C translator

`cbfc.c` translates a BrainFuck program into a C program. `start_compilation`
writes a fixed prologue that declares a tape of `tape_size` cells. It then
calls `compile_code` on the instruction string at indentation depth one and
writes a fixed epilogue.

`compile_code` scans the string with an index `i`:
- A maximal run of `+`, `-`, `>` or `<` becomes one weighted statement.
- `.` and `,` become `printf("%c", *tape);` and
  `if ((c=getchar()) != EOF) *tape = c;`.
- `[` writes `while(*tape) {`. It then calls `compile_code` on the rest of the
  string, one level deeper, and uses the returned offset to skip the body
  before writing `}`.
- `]` stops the scan and returns its own index.
- Every other character is skipped.

The model has these modules:

- `Text`: the indentation unit and the `%d` rendering of integers, with a
  reader that undoes that rendering.
- `Brackets`: nesting levels and well-nested spans of an instruction string,
  stated without reference to the translator.
- `Target`: the emitted statements as a datatype `Stmt`, and their rendering
  into indented lines. It also reads lines back: their indentation, and the
  `while`/`}` skeleton they form.
- `Translator`: `Translate(code, i)`, the statements one invocation of
  `compile_code` emits from scan index `i` and the offset it returns. It
  carries the lemmas about runs, comments, brackets and the returned offset.
- `Expansion`: expanding statements back into instructions. On a well-nested
  program this gives back the program without its comment characters.
- `Program`: the whole generated file (prologue, body, epilogue) and its
  layout.
- `Reading`: a reader for the emitted lines. It turns the body of the
  generated file back into statements, which shows the rendering loses
  nothing.
- `Semantics`: what the instructions and the emitted statements do to a tape
  of `unsigned char` cells. A reference interpreter runs the BrainFuck string
  character by character. A second interpreter runs the statement tree. Both
  count loop iterations against the same bound, so agreement for every bound
  means equal behaviour, including non-termination. A cell outside the tape
  is a fault when it is read or written; moving the pointer alone is not.
- `Cbfc`: the C procedures as imperative methods that append lines to an
  output sequence: `Indent`, the run-counting loop, `CompileCode` (the `for`
  loop, whose `break` on `]` is its exit condition), `CompileStep` (its `switch`, with
  the recursion for `[`) and `StartCompilation`. Each
  is proved to write exactly what the functions above specify.

The `FILE *` sink is modelled as the sequence of lines written so far. Every
`fprintf` of the translator ends its text with a newline. `indent` writes
only spaces, and the line's text follows it. So each `case` of the `switch`
appends whole lines. A C string is modelled as the characters before its
terminating NUL, which is what `strlen` and the run loops see.

Two behaviours of the code are modelled as written:

- **Stray `]`.** A `]` at nesting level zero ends the top-level translation
  (`StrayCloseTruncates`). The rest of the program is not translated.
- **Unclosed `[`.** A `[` that is never closed does not make the C code read
  past the string. The nested call stops at the terminating NUL and returns
  the length of its suffix. The loop is still closed with `}`. The offset
  returned to the caller exceeds the length of the string by one per
  unclosed `[` (`UnclosedOvershoots`). The run loops and the nested `strlen`
  both stop at the terminating NUL, so no read goes past the string.

## Model

| member | source | states |
|---|---|---|
| Text.Indentation | cbfc.c:128-132 | `depth` indentation units are exactly 4·depth spaces, and nothing when depth is below one |
| Text.NatToDecimal | cbfc.c:168 | `%d` of a run length is a non-empty digit string without a leading zero |
| Text.DecimalRoundTrip | cbfc.c:168 | the magnitude of a weighted statement can be read back from its text |
| Text.IntToDecimal | cbfc.c:138 | `%d` of the tape size starts with `-` exactly when the size is negative |
| Text.SignedDecimalRoundTrip | cbfc.c:138 | the rendered tape size reads back as the same integer |
| Target.StatementText | cbfc.c:168-195 | each one-line statement's text is non-empty, starts with no space, and is neither a `while` header nor a closing brace |
| Target.RenderIndentation | cbfc.c:128-132 | every line emitted at depth `ind` is indented by four spaces per enclosing block, and a statement list ends at the depth where it started |
| Target.SkeletonOfRender | cbfc.c:197-203 | the `while(*tape) {` and `}` lines of a rendering are exactly the loop structure of the statements |
| Target.RenderBalanced | cbfc.c:197-203 | the emitted `while` and `}` lines are well nested for any statement list |
| Translator.RunLength | cbfc.c:167 | the run loop counts a maximal run: every counted character is `c`, and the next one is not |
| Translator.RunLengthUnique | cbfc.c:167 | a maximal run's length is determined by where it starts |
| Translator.TranslateShift | cbfc.c:200 | the nested call on `code+i+1` emits what the outer scan would emit from `i+1`, and its offset is measured from there |
| Translator.TranslateOpen | cbfc.c:197-203 | `[` emits a loop whose body is the scan from after the `[`; the scan resumes one past where the body stopped |
| Translator.RunCollapsed | cbfc.c:165-188 | a maximal run of k copies of `+`, `-`, `>` or `<` emits one statement of magnitude k, and the scan resumes right after the run |
| Translator.InputOutputLine | cbfc.c:189-196 | `.` and `,` each emit exactly one line with their fixed text at the current depth, and the scan moves by one |
| Translator.CommentsSkipped | cbfc.c:164-207 | characters other than the eight instructions emit nothing and advance the scan |
| Translator.ConsumedLength | cbfc.c:162-210 | the offset returned is the index of the `]` that closes the level the scan started at, or the string length plus the number of brackets still open |
| Translator.BalancedConsumesAll | cbfc.c:158-210 | on a well-nested program the top-level call returns `strlen(code)` |
| Translator.OpenResumesAtMatch | cbfc.c:200-209 | after a `[` in a well-nested stretch, `i` lands on the matching `]`, which the loop increment then skips |
| Translator.TranslateLocal | cbfc.c:204-208 | the statements emitted for a stretch ending at its closing `]` depend only on that stretch |
| Translator.StrayCloseTruncates | cbfc.c:204-210 | a top-level `]` ends the translation; the offset is its index and nothing after it is translated |
| Translator.UnclosedOvershoots | cbfc.c:162-210 | with brackets left open, the offset returned exceeds the length by their number |
| Translator.TranslateSkeleton | cbfc.c:197-203 | the loop structure of the emitted statements equals the bracket structure of the well-nested source stretch |
| Expansion.TranslateExpand | cbfc.c:162-210 | expanding the statements emitted for a well-nested stretch gives back its instructions, in order, without comments |
| Expansion.BalancedRoundTrip | cbfc.c:162-210 | on a well-nested program the translation loses no instruction and invents none |
| Program.GeneratedLayout | cbfc.c:135-151 | the file starts with the includes, the tape-size macro and `int main() {`, and ends with `}`; every line inside `main` is indented by nesting, starting one block deep |
| Program.TapeSizeReadBack | cbfc.c:138 | the `#define tape_size` line carries the tape size verbatim and reads back to it |
| Program.GeneratedNesting | cbfc.c:139-149 | the `while`/`}` lines inside `main` are well nested, and for a well-nested program they are its brackets in order |
| Reading.WeightedRoundTrip | cbfc.c:168-186 | the text of a weighted statement reads back to its magnitude |
| Reading.StatementRoundTrip | cbfc.c:168-195 | the text of every one-line statement reads back as that statement and no other |
| Reading.ParseRender | cbfc.c:165-203 | the lines written for a statement list, followed by a closing brace or nothing, read back as that list with the following lines untouched |
| Reading.RenderReadsBack | cbfc.c:153-211 | the lines `compile_code` writes for any statement list read back as exactly that list |
| Reading.GeneratedDecompiles | cbfc.c:135-151 | the lines between prologue and epilogue read back as the translation, and for a well-nested program expand to its instructions |
| Semantics.SkipToMatch | cbfc.c:197-206 | the reference interpreter matches brackets by a forward scan, which the C code does not have; from a `[` that scan finds the `]` closing it, the same `]` at which the nested `compile_code` call stops (linked through `OpenResumesAtMatch` and `PreservedOpen`) |
| Semantics.RunSteps | cbfc.c:165-188 | a run of k equal `+`, `-`, `>` or `<` has the effect of the one weighted statement emitted for it, with cells modulo 256 |
| Semantics.NonBracketStep | cbfc.c:165-196 | each non-bracket character has the effect of the statements emitted for it; `,` agrees when the byte read is not 255 |
| Semantics.Preserved | cbfc.c:162-210 | running the statements emitted for a well-nested stretch gives the same outcome as running the stretch, for every loop bound |
| Semantics.LoopPreserved | cbfc.c:197-203 | `while(*tape) { … }` around the translated body repeats exactly as the bracketed loop does |
| Semantics.TranslationPreservesBehaviour | cbfc.c:153-211 | the translation of a well-nested program behaves as the program on any tape and any input without byte 255 |
| Semantics.Byte255ReadAsEndOfInput | cbfc.c:143 | with `char c`, byte 255 read by `,` is taken for end of input and the cell keeps its value, where BrainFuck stores 255 |
| Semantics.FreeOfMovedPointer | cbfc.c:146 | after `>` the generated `main` hands `free` a pointer that `malloc` did not return |
| Semantics.UninitialisedTape | cbfc.c:141 | `.` on the fresh tape writes whatever `malloc` left there instead of 0 |
| Semantics.MainIntendedRunsProgram | cbfc.c:141-148 | with a zeroed tape that is freed through its original pointer, the generated `main` runs the BrainFuck program |
| Cbfc.Indent | cbfc.c:128-132 | the counting loop writes the indentation of the given depth |
| Cbfc.CountRun | cbfc.c:167 | the run loop stops at the first different character or at the end of the string, returning the maximal run length |
| Cbfc.CompileInstruction | cbfc.c:165-196 | one non-bracket `case` writes the lines `Translate` specifies for that character and moves the scan past it |
| Cbfc.CompileLoop | cbfc.c:197-203 | the `[` case writes the `while` header, the nested translation one level deeper and the closing brace, and resumes the scan after the nested offset |
| Cbfc.CompileStep | cbfc.c:162-203 | the `switch` on any character but `]` writes the lines `Translate` specifies for it and moves the scan strictly forward |
| Cbfc.CompileCode | cbfc.c:153-211 | `compile_code` writes exactly the rendering of `Translate(code, 0)` at depth `ind` and returns its offset |
| Cbfc.StartCompilation | cbfc.c:135-151 | `start_compilation` writes the prologue, the depth-one translation and the epilogue |

## Left out

- Semantics.TranslationPreservesBehaviour: holds only for input without byte
  255. The generated code stores `getchar()` in a `char`, and where `char` is
  signed, byte 255 compares equal to `EOF` (`Byte255ReadAsEndOfInput`).
  Whether `char` is signed is up to the C implementation, so this is stated
  as a limit, not as a finding.
- Semantics.ExecStmt: models the generated `char c` as a signed `char`, so
  `,` at end of input, or on byte 255, leaves the cell unchanged. Where
  `char` is unsigned, `(c=getchar()) != EOF` is always true, and `,` at end
  of input stores 255 instead. On such platforms
  `TranslationPreservesBehaviour` does not hold for programs that read past
  the end of their input, and the model does not cover that case.
- Pointer arithmetic past the ends of the tape is undefined in C. The model
  lets the pointer move freely and faults only when a cell outside the tape is
  read or written. `malloc` returning `NULL`, and a negative `tape_size`, are
  not modelled.
- Loop iterations are bounded by a fuel argument in both interpreters. A
  program that does not terminate shows up as running out of fuel for every
  bound.

- `main`, `parse_opt` and the argp setup are not part of this model. They
  handle command-line parsing, opening files, building the compiler command,
  `system()` and `remove()`. All of this is process control and I/O.
- `read_to_EOF` is not modelled. The program text is taken as an
  already-loaded string.
- The verbose diagnostics (`printf` under `verbose`) are not modelled. They go
  to standard output and do not change the emitted file.
- `FILE *` and `fprintf` mechanics are replaced by appending lines to a
  sequence. Write errors are not modelled.
- A NUL character inside the program text is not modelled. In C it ends the
  string, so the model's input is the text before it.
- `int` overflow of the scan index, of a run length above `INT_MAX`, or of the
  offset is not modelled. Integers are unbounded here.

## Findings

| source | as written | input that shows it | evidently intended | confidence | as-written member | corrected member |
|---|---|---|---|---|---|---|
| cbfc.c:146 | `free(tape)` is called on the tape pointer after the emitted statements have moved it | the program `>` ends with the pointer on the second cell, so `free` receives a pointer `malloc` did not return | free the block through the pointer `malloc` returned | high; not executed | Semantics.FreeOfMovedPointer | Semantics.MainIntendedRunsProgram |
| cbfc.c:141 | the tape comes from `malloc`, whose contents are indeterminate | the program `.` writes whatever byte was in the first cell | a tape of zero cells, as BrainFuck assumes (`calloc`) | high; not executed | Semantics.UninitialisedTape | Semantics.MainIntendedRunsProgram |
