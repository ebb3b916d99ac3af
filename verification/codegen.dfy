/** `generate_asm`: the assembly text written for an operation sequence. A
    fixed preamble, one block per operation in order, then the exit. */
module CodeGen {
  import opened Ops
  import opened Numerals
  import opened Asm

  const Header: string := "segment .text\n"

  /** The decimal-print routine, written out verbatim and otherwise treated
      as opaque; `Machine` gives its effect. */
  const DumpRoutine: string :=
    ""
    + "dump:\n"
    + "    mov     r8, -3689348814741910323\n"
    + "    sub     rsp, 40\n"
    + "    mov     BYTE [rsp+31], 10\n"
    + "    lea     rcx, [rsp+30]\n"
    + ".L2:\n"
    + "    mov     rax, rdi\n"
    + "    mul     r8\n"
    + "    mov     rax, rdi\n"
    + "    shr     rdx, 3\n"
    + "    lea     rsi, [rdx+rdx*4]\n"
    + "    add     rsi, rsi\n"
    + "    sub     rax, rsi\n"
    + "    mov     rsi, rcx\n"
    + "    sub     rcx, 1\n"
    + "    add     eax, 48\n"
    + "    mov     BYTE [rcx+1], al\n"
    + "    mov     rax, rdi\n"
    + "    mov     rdi, rdx\n"
    + "    cmp     rax, 9\n"
    + "    ja      .L2\n"
    + "    lea     rdx, [rsp+32]\n"
    + "    mov     edi, 1\n"
    + "    sub     rdx, rsi\n"
    + "    mov     rax, 1\n"
    + "    syscall\n"
    + "    add     rsp, 40\n"
    + "    ret\n"
    + "\n"

  const EntryPoint: string := "global _start\n_start:\n"

  /** Everything written before the first operation block. */
  const Preamble: string := Header + DumpRoutine + EntryPoint

  /** The label index of `generate_asm`. It is declared once and never
      advanced, so every control-flow block uses the same two labels. */
  const LabelIndex: nat := 0

  /** `exit(0)`: the status never depends on the program's values. */
  const ExitSequence: seq<Instr> := [MovImm(Rax, 60), MovImm(Rdi, 0), Syscall]

  /** The instructions written for one operation. Nothing but the operation
      itself (and a push's word) decides them, not its position. */
  function Block(op: Op): seq<Instr> {
    match op
    case Push(w) => [PushImm(w)]
    case Add => [Pop(Rax), Pop(Rbx), AddReg(Rax, Rbx), PushReg(Rax)]
    case Sub => [Pop(Rax), Pop(Rbx), SubReg(Rbx, Rax), PushReg(Rbx)]
    case Mul => [Pop(Rax), Pop(Rbx), ImulReg(Rbx, Rax), PushReg(Rbx)]
    case Div => [Pop(Rax), Pop(Rbx), Cqo, Idiv(Rbx), PushReg(Rax)]
    case Dump => [Pop(Rdi), CallDump]
    case Eq => [MovImm(Rcx, 0), MovImm(Rdx, 1), Pop(Rax), Pop(Rbx), Cmp(Rax, Rbx), Cmove(Rcx, Rdx), PushReg(Rcx)]
    case If => [Pop(Rax), Test(Rax), Jz(LabelIndex + 1)]
    case Else => [Jmp(LabelIndex), Label(LabelIndex + 1)]
    case End => [Label(LabelIndex)]
    case Nop => [NopInstr]
  }

  /** The text written for one operation. */
  function Emit(op: Op): string {
    Text(Block(op))
  }

  function Blocks(ops: seq<Op>): seq<seq<Instr>> {
    seq(|ops|, i requires 0 <= i < |ops| => Block(ops[i]))
  }

  /** The instructions of all operation blocks, in order. */
  function Program(ops: seq<Op>): seq<Instr> {
    Concat(Blocks(ops))
  }

  /** The text the loop over operations writes. */
  function Body(ops: seq<Op>): string {
    if ops == [] then "" else Emit(ops[0]) + Body(ops[1..])
  }

  /** The whole output file. */
  function Generate(ops: seq<Op>): string {
    Preamble + Body(ops) + Text(ExitSequence)
  }

  lemma PopLines()
    ensures Render(Pop(Rax)) == "    pop rax\n"
    ensures Render(Pop(Rbx)) == "    pop rbx\n"
    ensures Render(Pop(Rdi)) == "    pop rdi\n"
  {
  }

  lemma PushLines()
    ensures Render(PushReg(Rax)) == "    push rax\n"
    ensures Render(PushReg(Rbx)) == "    push rbx\n"
    ensures Render(PushReg(Rcx)) == "    push rcx\n"
  {
  }

  lemma AddSubLines()
    ensures Render(AddReg(Rax, Rbx)) == "    add rax, rbx\n"
    ensures Render(SubReg(Rbx, Rax)) == "    sub rbx, rax\n"
  {
  }

  lemma MulDivLines()
    ensures Render(ImulReg(Rbx, Rax)) == "    imul rbx, rax\n"
    ensures Render(Cqo) == "    cqo\n"
    ensures Render(Idiv(Rbx)) == "    idiv rbx\n"
  {
  }

  lemma FlagLines()
    ensures Render(MovImm(Rcx, 0)) == "    mov rcx, 0\n"
    ensures Render(MovImm(Rdx, 1)) == "    mov rdx, 1\n"
  {
    SmallNumbers();
  }

  lemma CompareLines()
    ensures Render(Cmp(Rax, Rbx)) == "    cmp rax, rbx\n"
    ensures Render(Cmove(Rcx, Rdx)) == "    cmove rcx, rdx\n"
  {
  }

  lemma TestLine()
    ensures Render(Test(Rax)) == "    test rax, rax\n"
  {
  }

  lemma JumpLines()
    ensures Render(Jz(LabelIndex + 1)) == "    jz .addr_1\n"
    ensures Render(Jmp(LabelIndex)) == "    jmp .addr_0\n"
  {
    SmallNumbers();
  }

  lemma LabelLines()
    ensures Render(Label(LabelIndex + 1)) == "\n.addr_1:\n"
    ensures Render(Label(LabelIndex)) == "\n.addr_0:\n"
  {
    SmallNumbers();
  }

  lemma CallNopLines()
    ensures Render(CallDump) == "    call dump\n"
    ensures Render(NopInstr) == "    nop\n"
  {
  }

  lemma ExitInstrLines()
    ensures Render(MovImm(Rax, 60)) == "    mov rax, 60\n"
    ensures Render(MovImm(Rdi, 0)) == "    mov rdi, 0\n"
    ensures Render(Syscall) == "    syscall\n"
  {
    SmallNumbers();
  }

  lemma PushText(w: string)
    ensures Emit(Push(w)) == "    push " + w + "\n"
  {
    TextSingle(PushImm(w));
  }

  lemma AddText()
    ensures Emit(Add) == "    pop rax\n" + "    pop rbx\n" + "    add rax, rbx\n" + "    push rax\n"
  {
    TextCons(Pop(Rax), [Pop(Rbx), AddReg(Rax, Rbx), PushReg(Rax)]);
    TextCons(Pop(Rbx), [AddReg(Rax, Rbx), PushReg(Rax)]);
    TextCons(AddReg(Rax, Rbx), [PushReg(Rax)]);
    TextSingle(PushReg(Rax));
    PopLines();
    PushLines();
    AddSubLines();
  }

  lemma SubText()
    ensures Emit(Sub) == "    pop rax\n" + "    pop rbx\n" + "    sub rbx, rax\n" + "    push rbx\n"
  {
    TextCons(Pop(Rax), [Pop(Rbx), SubReg(Rbx, Rax), PushReg(Rbx)]);
    TextCons(Pop(Rbx), [SubReg(Rbx, Rax), PushReg(Rbx)]);
    TextCons(SubReg(Rbx, Rax), [PushReg(Rbx)]);
    TextSingle(PushReg(Rbx));
    PopLines();
    PushLines();
    AddSubLines();
  }

  lemma MulText()
    ensures Emit(Mul) == "    pop rax\n" + "    pop rbx\n" + "    imul rbx, rax\n" + "    push rbx\n"
  {
    TextCons(Pop(Rax), [Pop(Rbx), ImulReg(Rbx, Rax), PushReg(Rbx)]);
    TextCons(Pop(Rbx), [ImulReg(Rbx, Rax), PushReg(Rbx)]);
    TextCons(ImulReg(Rbx, Rax), [PushReg(Rbx)]);
    TextSingle(PushReg(Rbx));
    PopLines();
    PushLines();
    MulDivLines();
  }

  lemma DivText()
    ensures Emit(Div) == "    pop rax\n" + "    pop rbx\n" + "    cqo\n" + "    idiv rbx\n" + "    push rax\n"
  {
    TextCons(Pop(Rax), [Pop(Rbx), Cqo, Idiv(Rbx), PushReg(Rax)]);
    TextCons(Pop(Rbx), [Cqo, Idiv(Rbx), PushReg(Rax)]);
    TextCons(Cqo, [Idiv(Rbx), PushReg(Rax)]);
    TextCons(Idiv(Rbx), [PushReg(Rax)]);
    TextSingle(PushReg(Rax));
    PopLines();
    PushLines();
    MulDivLines();
  }

  lemma DumpOpText()
    ensures Emit(Dump) == "    pop rdi\n" + "    call dump\n"
  {
    TextCons(Pop(Rdi), [CallDump]);
    TextSingle(CallDump);
    PopLines();
    CallNopLines();
  }

  lemma EqText()
    ensures Emit(Eq) == "    mov rcx, 0\n" + "    mov rdx, 1\n" + "    pop rax\n" + "    pop rbx\n"
                        + "    cmp rax, rbx\n" + "    cmove rcx, rdx\n" + "    push rcx\n"
  {
    assert Block(Eq) == [MovImm(Rcx, 0), MovImm(Rdx, 1), Pop(Rax), Pop(Rbx)] + [Cmp(Rax, Rbx), Cmove(Rcx, Rdx), PushReg(Rcx)];
    TextAppend([MovImm(Rcx, 0), MovImm(Rdx, 1), Pop(Rax), Pop(Rbx)], [Cmp(Rax, Rbx), Cmove(Rcx, Rdx), PushReg(Rcx)]);
    EqSetupText();
    EqCompareText();
  }

  lemma EqSetupText()
    ensures Text([MovImm(Rcx, 0), MovImm(Rdx, 1), Pop(Rax), Pop(Rbx)])
         == "    mov rcx, 0\n" + "    mov rdx, 1\n" + "    pop rax\n" + "    pop rbx\n"
  {
    TextCons(MovImm(Rcx, 0), [MovImm(Rdx, 1), Pop(Rax), Pop(Rbx)]);
    TextCons(MovImm(Rdx, 1), [Pop(Rax), Pop(Rbx)]);
    TextCons(Pop(Rax), [Pop(Rbx)]);
    TextSingle(Pop(Rbx));
    FlagLines();
    PopLines();
  }

  lemma EqCompareText()
    ensures Text([Cmp(Rax, Rbx), Cmove(Rcx, Rdx), PushReg(Rcx)])
         == "    cmp rax, rbx\n" + "    cmove rcx, rdx\n" + "    push rcx\n"
  {
    TextCons(Cmp(Rax, Rbx), [Cmove(Rcx, Rdx), PushReg(Rcx)]);
    TextCons(Cmove(Rcx, Rdx), [PushReg(Rcx)]);
    TextSingle(PushReg(Rcx));
    CompareLines();
    PushLines();
  }

  lemma IfText()
    ensures Emit(If) == "    pop rax\n" + "    test rax, rax\n" + "    jz .addr_1\n"
  {
    TextCons(Pop(Rax), [Test(Rax), Jz(LabelIndex + 1)]);
    TextCons(Test(Rax), [Jz(LabelIndex + 1)]);
    TextSingle(Jz(LabelIndex + 1));
    PopLines();
    TestLine();
    JumpLines();
  }

  lemma ElseText()
    ensures Emit(Else) == "    jmp .addr_0\n" + "\n.addr_1:\n"
  {
    TextCons(Jmp(LabelIndex), [Label(LabelIndex + 1)]);
    TextSingle(Label(LabelIndex + 1));
    JumpLines();
    LabelLines();
  }

  lemma EndText()
    ensures Emit(End) == "\n.addr_0:\n"
  {
    TextSingle(Label(LabelIndex));
    LabelLines();
  }

  lemma NopText()
    ensures Emit(Nop) == "    nop\n"
  {
    TextSingle(NopInstr);
    CallNopLines();
  }

  /** The exact text of each operation's block, line by line. Control-flow
      blocks name the same labels wherever they stand. */
  lemma EmitText(op: Op)
    ensures Emit(op) == match op
      case Push(w) => "    push " + w + "\n"
      case Add => "    pop rax\n" + "    pop rbx\n" + "    add rax, rbx\n" + "    push rax\n"
      case Sub => "    pop rax\n" + "    pop rbx\n" + "    sub rbx, rax\n" + "    push rbx\n"
      case Mul => "    pop rax\n" + "    pop rbx\n" + "    imul rbx, rax\n" + "    push rbx\n"
      case Div => "    pop rax\n" + "    pop rbx\n" + "    cqo\n" + "    idiv rbx\n" + "    push rax\n"
      case Dump => "    pop rdi\n" + "    call dump\n"
      case Eq => "    mov rcx, 0\n" + "    mov rdx, 1\n" + "    pop rax\n" + "    pop rbx\n"
                 + "    cmp rax, rbx\n" + "    cmove rcx, rdx\n" + "    push rcx\n"
      case If => "    pop rax\n" + "    test rax, rax\n" + "    jz .addr_1\n"
      case Else => "    jmp .addr_0\n" + "\n.addr_1:\n"
      case End => "\n.addr_0:\n"
      case Nop => "    nop\n"
  {
    match op
    case Push(w) => PushText(w);
    case Add => AddText();
    case Sub => SubText();
    case Mul => MulText();
    case Div => DivText();
    case Dump => DumpOpText();
    case Eq => EqText();
    case If => IfText();
    case Else => ElseText();
    case End => EndText();
    case Nop => NopText();
  }

  /** The exit sequence as text, written out line by line. */
  const ExitLines: string := "    mov rax, 60\n" + "    mov rdi, 0\n" + "    syscall\n"

  /** The text of `exit(0)`. */
  lemma ExitText()
    ensures Text(ExitSequence) == ExitLines
  {
    TextCons(MovImm(Rax, 60), [MovImm(Rdi, 0), Syscall]);
    TextCons(MovImm(Rdi, 0), [Syscall]);
    TextSingle(Syscall);
    ExitInstrLines();
  }

  /** The output is the preamble, the blocks, then `exit(0)`; an empty
      program is the preamble followed directly by the exit. */
  lemma GenerateLayout(ops: seq<Op>)
    ensures Generate(ops) == "segment .text\n" + DumpRoutine + "global _start\n_start:\n" + Body(ops) + ExitLines
    ensures ops == [] ==> Generate(ops) == Preamble + ExitLines
  {
    ExitText();
    var pre, body, exit := Preamble, Body(ops), Text(ExitSequence);
    assert Generate(ops) == pre + body + exit;
    if ops == [] {
      assert body == [];
      assert pre + body == pre;
    }
  }

  /** Emission is compositional: the blocks of `a + b` are the blocks of `a`
      followed by those of `b`. */
  lemma {:induction false} BodyAppend(a: seq<Op>, b: seq<Op>)
    ensures Body(a + b) == Body(a) + Body(b)
    decreases |a|
  {
    if a == [] {
      assert a + b == b;
    } else {
      assert (a + b)[1..] == a[1..] + b;
      BodyAppend(a[1..], b);
    }
  }

  /** The text at position `i` is the block of `ops[i]` alone: the same
      operation writes the same text wherever it stands. */
  lemma BodyAt(ops: seq<Op>, i: nat)
    requires i < |ops|
    ensures Body(ops) == Body(ops[..i]) + Emit(ops[i]) + Body(ops[i + 1..])
  {
    SplitAt(ops, i);
    BodyAround(ops[..i], ops[i], ops[i + 1..]);
  }

  lemma SplitAt(ops: seq<Op>, i: nat)
    requires i < |ops|
    ensures ops[..i] + [ops[i]] + ops[i + 1..] == ops
  {
  }

  lemma SplitAssoc(pre: seq<Op>, op: Op, post: seq<Op>)
    ensures pre + [op] + post == pre + ([op] + post)
  {
  }

  lemma BodyAround(pre: seq<Op>, op: Op, post: seq<Op>)
    ensures Body(pre + [op] + post) == Body(pre) + Emit(op) + Body(post)
  {
    SplitAssoc(pre, op, post);
    BodyAppend(pre, [op] + post);
    BodyCons(op, post);
  }

  lemma BodyCons(op: Op, rest: seq<Op>)
    ensures Body([op] + rest) == Emit(op) + Body(rest)
  {
    assert ([op] + rest)[1..] == rest;
  }

  lemma ProgramCons(ops: seq<Op>)
    requires ops != []
    ensures Program(ops) == Block(ops[0]) + Program(ops[1..])
  {
    assert Blocks(ops)[1..] == Blocks(ops[1..]);
  }

  /** The body is the text of the program's instructions. */
  lemma {:induction false} BodyIsProgramText(ops: seq<Op>)
    ensures Body(ops) == Text(Program(ops))
    decreases |ops|
  {
    if ops != [] {
      ProgramCons(ops);
      TextAppend(Block(ops[0]), Program(ops[1..]));
      BodyIsProgramText(ops[1..]);
    }
  }

  /** The labels one block defines and jumps to. */
  lemma BlockLabels(op: Op)
    ensures Defs(Block(op)) == if op == Else then [LabelIndex + 1] else if op == End then [LabelIndex] else []
    ensures Refs(Block(op)) == if op == If then {LabelIndex + 1} else if op == Else then {LabelIndex} else {}
  {
    match op
    case If => IfLabels();
    case Else => ElseLabels();
    case End => LabelsSingle(Label(LabelIndex));
    case _ => PlainLabels(op);
  }

  lemma IfLabels()
    ensures Defs(Block(If)) == [] && Refs(Block(If)) == {LabelIndex + 1}
  {
    assert Block(If) == [Pop(Rax), Test(Rax)] + [Jz(LabelIndex + 1)];
    DefsNoLabels(Block(If));
    RefsNoJumps([Pop(Rax), Test(Rax)]);
    RefsAppend([Pop(Rax), Test(Rax)], [Jz(LabelIndex + 1)]);
    LabelsSingle(Jz(LabelIndex + 1));
  }

  lemma ElseLabels()
    ensures Defs(Block(Else)) == [LabelIndex + 1] && Refs(Block(Else)) == {LabelIndex}
  {
    assert Block(Else) == [Jmp(LabelIndex)] + [Label(LabelIndex + 1)];
    DefsAppend([Jmp(LabelIndex)], [Label(LabelIndex + 1)]);
    RefsAppend([Jmp(LabelIndex)], [Label(LabelIndex + 1)]);
    LabelsSingle(Jmp(LabelIndex));
    LabelsSingle(Label(LabelIndex + 1));
  }

  lemma PlainLabels(op: Op)
    requires op != If && op != Else && op != End
    ensures Defs(Block(op)) == [] && Refs(Block(op)) == {}
  {
    DefsNoLabels(Block(op));
    RefsNoJumps(Block(op));
  }

  lemma MultisetCons(ops: seq<Op>)
    requires ops != []
    ensures multiset(ops) == multiset{ops[0]} + multiset(ops[1..])
    ensures forall op :: op in ops <==> op == ops[0] || op in ops[1..]
  {
    assert ops == [ops[0]] + ops[1..];
  }

  /** Which labels the program defines: `.addr_1` once per `Else`,
      `.addr_0` once per `End`, nothing else. */
  lemma {:induction false} ProgramDefs(ops: seq<Op>, l: nat)
    ensures multiset(Defs(Program(ops)))[l]
         == if l == LabelIndex + 1 then multiset(ops)[Else]
            else if l == LabelIndex then multiset(ops)[End]
            else 0
    decreases |ops|
  {
    if ops != [] {
      DefsCount(ops, l);
      BlockDefsCount(ops[0], l);
      ProgramDefs(ops[1..], l);
      MultisetCons(ops);
    }
  }

  /** A label's definitions in a program: those of its first block plus
      those of the rest. */
  lemma DefsCount(ops: seq<Op>, l: nat)
    requires ops != []
    ensures multiset(Defs(Program(ops)))[l]
         == multiset(Defs(Block(ops[0])))[l] + multiset(Defs(Program(ops[1..])))[l]
  {
    ProgramCons(ops);
    DefsAppend(Block(ops[0]), Program(ops[1..]));
  }

  lemma BlockDefsCount(op: Op, l: nat)
    ensures multiset(Defs(Block(op)))[l]
         == if l == LabelIndex + 1 && op == Else then 1 else if l == LabelIndex && op == End then 1 else 0
  {
    BlockLabels(op);
  }

  /** Which labels the program jumps to: `.addr_1` iff it has an `If`,
      `.addr_0` iff it has an `Else`. */
  lemma {:induction false} ProgramRefs(ops: seq<Op>)
    ensures Refs(Program(ops))
         == (if If in ops then {LabelIndex + 1} else {}) + (if Else in ops then {LabelIndex} else {})
    decreases |ops|
  {
    if ops != [] {
      ProgramCons(ops);
      RefsAppend(Block(ops[0]), Program(ops[1..]));
      BlockLabels(ops[0]);
      ProgramRefs(ops[1..]);
      MultisetCons(ops);
    }
  }

  /** Exactly when the written labels are acceptable to the assembler: at
      most one `Else` and one `End`, an `If` only with its `Else`, an `Else`
      only with its `End`. In particular an `If` without `Else`, or any two
      conditionals, are rejected. */
  lemma AssemblesIff(ops: seq<Op>)
    ensures Assembles(Program(ops))
        <==> && multiset(ops)[Else] <= 1
             && multiset(ops)[End] <= 1
             && (If in ops ==> multiset(ops)[Else] == 1)
             && (Else in ops ==> multiset(ops)[End] == 1)
  {
    DefsUnique(ops);
    RefsResolved(ops);
  }

  /** No label is defined twice iff there is at most one `Else` and at most
      one `End`. */
  lemma DefsUnique(ops: seq<Op>)
    ensures LabelsUnique(Program(ops))
        <==> multiset(ops)[Else] <= 1 && multiset(ops)[End] <= 1
  {
    DefsShape(ops);
  }

  /** Every jump lands iff every `If` has an `Else` and every `Else` an
      `End` somewhere in the program. */
  lemma RefsResolved(ops: seq<Op>)
    ensures JumpsResolve(Program(ops))
        <==> (If in ops ==> Else in ops) && (Else in ops ==> End in ops)
  {
    DefsShape(ops);
    ProgramRefs(ops);
  }

  /** The program defines only the two shared labels, `.addr_1` once per
      `Else` and `.addr_0` once per `End`. */
  lemma DefsShape(ops: seq<Op>)
    ensures forall l :: l in Defs(Program(ops)) ==> l == 0 || l == 1
    ensures multiset(Defs(Program(ops)))[1] == multiset(ops)[Else]
    ensures multiset(Defs(Program(ops)))[0] == multiset(ops)[End]
    ensures 1 in Defs(Program(ops)) <==> Else in ops
    ensures 0 in Defs(Program(ops)) <==> End in ops
  {
    var defs := Defs(Program(ops));
    ProgramDefs(ops, 0);
    ProgramDefs(ops, 1);
    forall l: nat | l in defs
      ensures l == 0 || l == 1
    {
      ProgramDefs(ops, l);
    }
  }

  /** A program with an `If` but no `Else` jumps to `.addr_1`, which
      nothing defines. */
  lemma IfWithoutElseDangles(ops: seq<Op>)
    requires If in ops && Else !in ops
    ensures LabelIndex + 1 in Refs(Program(ops))
    ensures LabelIndex + 1 !in Defs(Program(ops))
    ensures !Assembles(Program(ops))
  {
    ProgramRefs(ops);
    DefsShape(ops);
  }

  /** An `If` closed by `End` alone jumps to `.addr_1`, which nothing
      defines. */
  lemma IfWithoutElseUnresolved()
    ensures LabelIndex + 1 in Refs(Program([Push("1"), If, Push("2"), Dump, End]))
    ensures LabelIndex + 1 !in Defs(Program([Push("1"), If, Push("2"), Dump, End]))
    ensures !Assembles(Program([Push("1"), If, Push("2"), Dump, End]))
  {
    var ops := [Push("1"), If, Push("2"), Dump, End];
    assert ops[1] == If;
    IfWithoutElseDangles(ops);
  }

  /** Any two `if ... else ... end` conditionals define `.addr_0` and
      `.addr_1` twice each. */
  lemma TwoConditionalsDefineTwice(a: seq<Op>, b: seq<Op>)
    requires multiset(a)[Else] == 1 && multiset(a)[End] == 1
    requires multiset(b)[Else] == 1 && multiset(b)[End] == 1
    ensures multiset(Defs(Program(a + b)))[LabelIndex] == 2
    ensures multiset(Defs(Program(a + b)))[LabelIndex + 1] == 2
    ensures !Assembles(Program(a + b))
  {
    DefsShape(a + b);
    assert LabelIndex in Defs(Program(a + b));
  }

  /** Two complete conditionals define `.addr_0` and `.addr_1` twice each. */
  lemma TwoConditionalsClash()
    ensures multiset(Defs(Program([Push("1"), If, Else, End, Push("0"), If, Else, End])))[LabelIndex] == 2
    ensures multiset(Defs(Program([Push("1"), If, Else, End, Push("0"), If, Else, End])))[LabelIndex + 1] == 2
    ensures !Assembles(Program([Push("1"), If, Else, End, Push("0"), If, Else, End]))
  {
    var a := [Push("1"), If, Else, End];
    var b := [Push("0"), If, Else, End];
    assert a + b == [Push("1"), If, Else, End, Push("0"), If, Else, End];
    TwoConditionalsDefineTwice(a, b);
  }
}
