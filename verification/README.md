# testlang translator in Dafny

A Dafny model of the translator in `src/main.rs` of testlang. The translator takes a
whitespace-delimited stack language and emits NASM assembly text for x86-64 Linux.
The model covers the following:

- **Lowering** (`Lexer`): `parse_word_to_op` maps each word to an operation. Ten
  keywords map to fixed operations, and any other word becomes a push that keeps the
  word verbatim.
- **Tokenising** (`Lexer`): the loop in `main` splits the source into lines, then
  into whitespace-separated words, and lowers each word in order. Rust's
  `str::lines` is modelled, including dropping a `\r` before `\n`.
  `char::is_whitespace` is modelled as the full Unicode White_Space set.
- **Code generation** (`CodeGen`, over the instruction vocabulary in `Asm`):
  `generate_asm` writes a header, the verbatim text of the `dump` print routine, and
  the entry point. Then it writes one block per operation and finally `exit(0)`.
  Every block is rendered to the exact text the source writes. The label index `i`
  stays `0`, exactly as in the source.
- **Meaning** (`StackSemantics`, `Machine`, `Correctness`): there are two
  semantics. One is a stack semantics of the language. The other is a small machine
  semantics of the emitted instructions: registers, the zero flag, the native stack
  and the output. `Correctness` proves that each straight-line block other than
  division implements its operation. It also proves that a straight-line program
  without division prints what the stack semantics prints and then exits with
  status 0. The Div block as written is proved to compute the operands in reverse.
- **Corrections** (`Fixed`): a corrected generator. A pushdown pass pairs every
  `if`/`else` with its closer. It rejects unbalanced programs with the position to
  blame. Labels are numbered by position. Division pops its operands in the
  language's order.
- **End to end** (`Translator`): source text in, assembly text out.

Sub (`src/main.rs:66`) leaves `a − b`, where `a` was pushed first. The Div block
(`src/main.rs:72`) pops the top value into `rax` and the value below it into `rbx`,
then runs `idiv rbx`. It therefore computes `b ÷ a`, the reverse order. The model of
the generator follows the code. The discrepancy is recorded under Findings.

## Model

| member | source | states |
|---|---|---|
| Lexer.Lower | src/main.rs:104-118 | The keyword table: each of `+ - . = * / if else end nop` lowers to its own operation, which spells back to the word. Any other word lowers to a push holding exactly that word, so lowering never fails. |
| Lexer.LowerSpell | src/main.rs:8-20 | Lowering inverts spelling for every operation: a keyword operation, or a push whose word is not a keyword. |
| Lexer.TokenizeIsLowerWords | src/main.rs:136-143 | Splitting into lines and then words, skipping lines without words, gives exactly the lowering of all whitespace-separated words of the text in order. |
| Lexer.TokenizeSeparated | src/main.rs:138-142 | Any non-empty run of whitespace (spaces, tabs, line breaks) between two texts separates them: the operations of the whole are those of the first followed by those of the second. |
| Lexer.TokenizeBlank | src/main.rs:138-139 | Blank text, including the empty text and blank lines, contributes no operations. |
| Lexer.TokenizeUntokenize | src/main.rs:138-142 | Writing operations out separated by single spaces and tokenising the result gives back the same operations. |
| Lexer.SameProgramAnyLayout | src/main.rs:138-142 | `1 2 +`, `1\n2\n+` and `1  2   +` all give `[Push("1"), Push("2"), Add]`. |
| CodeGen.EmitText | src/main.rs:57-98 | The exact text each operation writes, line by line. A push writes `    push ` plus its word. Sub writes `sub rbx, rax`. Print pops into `rdi` and calls `dump`. If, Else and End name `.addr_1`/`.addr_0` wherever they stand. |
| CodeGen.GenerateLayout | src/main.rs:52-54 | The output is the header, the print routine, `global _start` and `_start:`, then the operation blocks, then the three-line exit sequence. An empty program gives the preamble followed directly by the exit (lines 52-54 and 99). |
| CodeGen.ExitText | src/main.rs:99 | The exit sequence is `mov rax, 60`, `mov rdi, 0`, `syscall`. |
| CodeGen.BodyAppend | src/main.rs:57-98 | Emission is compositional: the text for `a + b` is the text for `a` followed by the text for `b`. |
| CodeGen.BodyAt | src/main.rs:57-98 | The text at position `i` is the operation's own block, so the same operation writes the same text at any position. |
| CodeGen.AssemblesIff | src/main.rs:56 | With the index fixed at 0 (lines 56 and 80-93), the labels resolve and are unique exactly when there is at most one Else and at most one End, an If appears only with an Else, and an Else only with an End. |
| CodeGen.IfWithoutElseDangles | src/main.rs:80-93 | Any program with an `if` but no `else` jumps to `.addr_1`, which nothing defines, so it does not assemble. |
| CodeGen.IfWithoutElseUnresolved | src/main.rs:80-93 | `1 if 2 . end` jumps to `.addr_1`, which nothing defines. |
| CodeGen.TwoConditionalsDefineTwice | src/main.rs:80-93 | Any two programs that each hold one `else` and one `end`, laid end to end, define `.addr_0` and `.addr_1` twice each, so the result does not assemble. |
| CodeGen.TwoConditionalsClash | src/main.rs:80-93 | `1 if else end 0 if else end` defines `.addr_0` and `.addr_1` twice each. |
| Correctness.PushImplements | src/main.rs:60 | `push w` pushes the value of the literal `w`. A word that is not a decimal literal has no value. |
| Correctness.AddImplements | src/main.rs:63 | The Add block replaces the two top values with their sum and faults on fewer than two values. |
| Correctness.SubImplements | src/main.rs:66 | The Sub block replaces the two top values `a` (first pushed) and `b` with `a - b`. |
| Correctness.MulImplements | src/main.rs:69 | The Mul block replaces the two top values with their product. |
| Correctness.EqImplements | src/main.rs:78 | The Eq block replaces the two top values with 1 when they are equal and 0 otherwise. |
| Correctness.DumpImplements | src/main.rs:75 | The Print block removes the top value and prints it in decimal, followed by a newline. |
| Correctness.NopImplements | src/main.rs:95 | The Nop block changes nothing. |
| Correctness.DivAsWritten | src/main.rs:72 | The Div block as written leaves `b / a`, truncated toward zero, where `a` was pushed first. |
| Correctness.DivAsWrittenCounterexample | src/main.rs:72 | The Div block does not implement division in the language's order: `10 2 /` leaves 0 instead of 5. |
| Correctness.ConcatImplements | src/main.rs:57-98 | Blocks that each implement their operation, laid end to end, implement the operation sequence. |
| Correctness.RunStraightLine | src/main.rs:57-99 | A program with no control flow and no division prints what the stack semantics prints, then exits with status 0 whatever its values. When the semantics fails, the executable faults. |
| Correctness.IfBlockBranches | src/main.rs:80-84 | `if` pops the condition. On zero it jumps to label 1, otherwise it falls through. On an empty stack it faults. |
| Correctness.ElseEndBlocks | src/main.rs:85-93 | `else` always jumps to label 0. `end` only marks a place. |
| Fixed.ResolveFromCorrect | src/main.rs:80-93 | The pairing pass fails exactly when the pushdown reference rejects the rest of the program. On failure it blames an operation of the right kind. On success its pairing is complete, injective and properly nested, with each opener closed by an operation allowed to close it. |
| Fixed.Resolve | src/main.rs:80-93 | Pairing succeeds exactly on well-bracketed programs. |
| Fixed.Compile | src/main.rs:22-102 | The corrected translator accepts exactly the well-bracketed programs and blames an offending operation otherwise. |
| Fixed.FixedAssembles | src/main.rs:80-93 | With per-position labels and a matching, every label is defined once and every jump lands on a defined label. |
| Fixed.CompileAssembles | src/main.rs:22-102 | Every well-bracketed program compiles to code whose labels resolve. |
| Fixed.DivFixedImplements | src/main.rs:72 | The corrected Div block computes `a / b` truncated toward zero, and faults on a zero divisor or fewer than two values. |
| Fixed.FixedStraightLine | src/main.rs:57-98 | A corrected program without control flow, including division, runs exactly as the stack semantics says. |
| Fixed.CompileAgreesWithGenerate | src/main.rs:22-102 | Without control flow or division, the corrected translator writes exactly what the original writes. |
| Fixed.IfWithoutElseAssembles | src/main.rs:80-93 | `1 if 2 . end` is accepted and its labels now resolve. |
| Fixed.StrayEndBlamed | src/main.rs:89-93 | In any program, an `end` at position `k` after a well-bracketed prefix finds nothing open. It is the first fault, and compilation fails with EndWithoutOpen(k). |
| Fixed.StrayElseBlamed | src/main.rs:85-88 | In any program, an `else` at position `k` after a well-bracketed prefix finds no open `if`. It is the first fault, and compilation fails with ElseWithoutIf(k). |
| Fixed.StrayEndRejected | src/main.rs:89-93 | `end` alone is rejected with EndWithoutOpen(0). |
| Fixed.StrayElseRejected | src/main.rs:85-88 | `1 else end` is rejected with ElseWithoutIf(1), which blames the `else` and not the `end` after it. Only the first fault is reported. |
| Fixed.UnclosedRejected | src/main.rs:80-84 | `if if end` is rejected with Unclosed(0): the `end` closes the inner `if`, and the outer one is left open. |
| Translator.TranslateSeparated | src/main.rs:136-146 | Whitespace-insensitivity of the whole translator: a whitespace run between two texts adds nothing to the output. |
| Translator.TranslateBlank | src/main.rs:136-146 | A blank source still gives a complete program: the preamble, then `exit(0)`. |
| Translator.TranslateLayouts | src/main.rs:136-146 | The three layouts of `1 2 +` give the same assembly. |
| Translator.SumScenario | src/main.rs:136-146 | The executable built from `34 35 + .` prints `69` and exits with status 0. |
| Numerals.NatToString | src/main.rs:82 | Label numbers and immediates are written as canonical decimal digits that denote the number. |
| Numerals.DumpText | src/main.rs:23-50 | The print routine's output is the unsigned decimal text of the 64-bit value, with no leading zero, followed by a newline. |

## Left out

- File creation, `BufWriter` and the `?` error paths (src/main.rs:51 and throughout). The output is modelled as an in-memory string.
- Argument handling, the Windows check, the `-r` flag, and the `nasm`/`ld`/run invocations (src/main.rs:120-194). These are operating-system process glue.
- The instructions of the `dump` routine (src/main.rs:23-50). They are reproduced verbatim as text (`CodeGen.DumpRoutine`) but are not executed.
- Machine.Step: `call dump` is given the routine's observable meaning, which is to print the unsigned decimal of `rdi` and a newline. It also assumes that of the registers modelled, only `rbx` survives the call.
- Machine.Step: `add`, `sub` and `imul` are on unbounded integers, so 64-bit wrap-around is not modelled. The quotient overflow of `idiv` (minimum value divided by -1) is not modelled either.
- Machine.Step: a `push` operand must be a plain decimal literal, with an optional `-`. Other NASM operand syntaxes, labels and the 32-bit limit on immediates are not modelled. Such a push faults.
- Machine.Step: the native stack starts empty. On a real process it holds `argc` and `argv`, so underflow there would read them instead of faulting.
- Correctness.RunStraightLine: end-to-end behaviour is proved for programs without `if`/`else`/`end`. For conditionals, only each block's branching behaviour is stated (`Correctness.IfBlockBranches`, `Correctness.ElseEndBlocks`). The machine semantics has no program counter.
- Correctness.RunStraightLine: it excludes division, because the as-written Div block computes the operands the other way round (see Findings). Division is covered by `Fixed.FixedStraightLine` for the corrected block.
- Lexer.Tokenize: Rust's `lines` and `split_whitespace` are modelled on `char` sequences. Byte-level UTF-8 decoding of the file is not modelled.

## Findings

| source | as written | input that shows it | evidently intended | confidence | as-written member | corrected member |
|---|---|---|---|---|---|---|
| src/main.rs:56 | `let i = 0` is never advanced, so every If/Else/End uses `.addr_0`/`.addr_1`. | `1 if 2 . end` jumps to the undefined `.addr_1`. `1 if else end 0 if else end` defines both labels twice. | Each If/Else/End gets a label unique to its position, and each If/Else is paired with its closer, with unbalanced programs rejected. | high; not executed | CodeGen.IfWithoutElseUnresolved | Fixed.FixedAssembles |
| src/main.rs:72 | `pop rax; pop rbx; cqo; idiv rbx` divides the top value by the one below it. | `10 2 /` leaves 0 instead of 5. | `a / b` with `a` pushed first, the same operand order as subtraction. | high; not executed | Correctness.DivAsWrittenCounterexample | Fixed.DivFixedImplements |
