/** What the emitted blocks compute: each straight-line block, run on the
    machine, has the effect its operation has in the stack semantics, so a
    straight-line program prints what the stack semantics prints and then
    exits with status 0. */
module Correctness {
  import opened Results
  import opened Numerals
  import opened Ops
  import opened Asm
  import opened CodeGen
  import opened StackSemantics
  import opened Machine

  /** The part of a machine state the stack semantics sees. */
  function View(st: State): Config {
    Config(st.stack, st.out)
  }

  /** A machine outcome agrees with a semantic result: both fail, or the
      machine runs on with the same stack and output. */
  predicate Agrees(o: Outcome, d: Option<Config>) {
    match d
    case None => o.Fault?
    case Some(c) => o.Continue? && View(o.st) == c
  }

  /** `block` implements `op` from every machine state, whatever the
      registers and flag hold. */
  ghost predicate Implements(block: seq<Instr>, op: Op) {
    forall st: State :: Agrees(ExecSeq(block, st), Denote(op, View(st)))
  }

  /** `push w` pushes the literal's value. */
  lemma PushImplements(w: string)
    ensures Implements(Block(Push(w)), Push(w))
  {
    forall st: State
      ensures Agrees(ExecSeq(Block(Push(w)), st), Denote(Push(w), View(st)))
    {
      ExecSingle(PushImm(w), st);
    }
  }

  /** The state after `pop rax; pop rbx`: the top in rax, the value below
      it in rbx, both gone from the stack. */
  function PoppedTwo(st: State): State
    requires |st.stack| >= 2
  {
    var s := st.stack;
    st.(regs := st.regs[Rax := s[|s| - 1]][Rbx := s[|s| - 2]], stack := s[..|s| - 2])
  }

  /** The shared prologue of the binary blocks. */
  lemma PopTwo(st: State)
    ensures ExecSeq([Pop(Rax), Pop(Rbx)], st) == if |st.stack| < 2 then Fault else Continue(PoppedTwo(st))
  {
    ExecCons(Pop(Rax), [Pop(Rbx)], st);
    var s := st.stack;
    if |s| > 0 {
      var s1 := s[..|s| - 1];
      var st1 := Set(st, Rax, s[|s| - 1]).(stack := s1);
      assert Step(Pop(Rax), st) == Continue(st1);
      ExecSingle(Pop(Rbx), st1);
      if |s| >= 2 {
        PrefixOfPrefix(s);
        assert Step(Pop(Rbx), st1) == Continue(PoppedTwo(st));
      }
    }
  }

  lemma PrefixOfPrefix(s: seq<int>)
    requires |s| >= 2
    ensures s[..|s| - 1][..|s| - 2] == s[..|s| - 2]
    ensures s[..|s| - 1][|s| - 2] == s[|s| - 2]
  {
  }

  /** A block that starts with the prologue runs its tail on the popped
      state. */
  lemma AfterPopTwo(tail: seq<Instr>, st: State)
    ensures |st.stack| < 2 ==> ExecSeq([Pop(Rax), Pop(Rbx)] + tail, st) == Fault
    ensures |st.stack| >= 2 ==> ExecSeq([Pop(Rax), Pop(Rbx)] + tail, st) == ExecSeq(tail, PoppedTwo(st))
  {
    ExecAppend([Pop(Rax), Pop(Rbx)], tail, st);
    PopTwo(st);
  }

  /** `op d, s; push d` on a state where both registers hold values. */
  lemma ArithTail(i: Instr, d: Reg, st: State)
    requires i == AddReg(Rax, Rbx) || i == SubReg(Rbx, Rax) || i == ImulReg(Rbx, Rax)
    requires d == i.dst && Rax in st.regs && Rbx in st.regs
    ensures ExecSeq([i, PushReg(d)], st) == Continue(PushValue(Step(i, st).st, Step(i, st).st.regs[d]))
    ensures Step(i, st).st.out == st.out && Step(i, st).st.stack == st.stack
  {
    ExecCons(i, [PushReg(d)], st);
    ExecSingle(PushReg(d), Step(i, st).st);
  }

  lemma AddAt(st: State)
    ensures Agrees(ExecSeq(Block(Add), st), Denote(Add, View(st)))
  {
    assert Block(Add) == [Pop(Rax), Pop(Rbx)] + [AddReg(Rax, Rbx), PushReg(Rax)];
    AfterPopTwo([AddReg(Rax, Rbx), PushReg(Rax)], st);
    if |st.stack| >= 2 {
      var s := st.stack;
      var v := s[|s| - 2] + s[|s| - 1];
      ArithTail(AddReg(Rax, Rbx), Rax, PoppedTwo(st));
      assert Step(AddReg(Rax, Rbx), PoppedTwo(st)).st.regs[Rax] == v;
      assert Denote(Add, View(st)) == Some(Config(s[..|s| - 2] + [v], st.out));
    }
  }

  lemma SubAt(st: State)
    ensures Agrees(ExecSeq(Block(Sub), st), Denote(Sub, View(st)))
  {
    assert Block(Sub) == [Pop(Rax), Pop(Rbx)] + [SubReg(Rbx, Rax), PushReg(Rbx)];
    AfterPopTwo([SubReg(Rbx, Rax), PushReg(Rbx)], st);
    if |st.stack| >= 2 {
      var s := st.stack;
      var v := s[|s| - 2] - s[|s| - 1];
      ArithTail(SubReg(Rbx, Rax), Rbx, PoppedTwo(st));
      assert Step(SubReg(Rbx, Rax), PoppedTwo(st)).st.regs[Rbx] == v;
      assert Denote(Sub, View(st)) == Some(Config(s[..|s| - 2] + [v], st.out));
    }
  }

  lemma MulAt(st: State)
    ensures Agrees(ExecSeq(Block(Mul), st), Denote(Mul, View(st)))
  {
    assert Block(Mul) == [Pop(Rax), Pop(Rbx)] + [ImulReg(Rbx, Rax), PushReg(Rbx)];
    AfterPopTwo([ImulReg(Rbx, Rax), PushReg(Rbx)], st);
    if |st.stack| >= 2 {
      var s := st.stack;
      var p := s[|s| - 2] * s[|s| - 1];
      ArithTail(ImulReg(Rbx, Rax), Rbx, PoppedTwo(st));
      assert Step(ImulReg(Rbx, Rax), PoppedTwo(st)).st.regs[Rbx] == p;
      assert Denote(Mul, View(st)) == Some(Config(s[..|s| - 2] + [p], st.out));
    }
  }

  /** `add rax, rbx; push rax` after the prologue: the sum. */
  lemma AddImplements()
    ensures Implements(Block(Add), Add)
  {
    forall st: State
      ensures Agrees(ExecSeq(Block(Add), st), Denote(Add, View(st)))
    {
      AddAt(st);
    }
  }

  /** `sub rbx, rax; push rbx`: the first-pushed value minus the
      second-pushed one. */
  lemma SubImplements()
    ensures Implements(Block(Sub), Sub)
  {
    forall st: State
      ensures Agrees(ExecSeq(Block(Sub), st), Denote(Sub, View(st)))
    {
      SubAt(st);
    }
  }

  /** `imul rbx, rax; push rbx`: the product. */
  lemma MulImplements()
    ensures Implements(Block(Mul), Mul)
  {
    forall st: State
      ensures Agrees(ExecSeq(Block(Mul), st), Denote(Mul, View(st)))
    {
      MulAt(st);
    }
  }

  /** The value the comparison block pushes. */
  function Flag(b: bool): int {
    if b then 1 else 0
  }

  /** `cmp rax, rbx; cmove rcx, rdx` with rcx = 0 and rdx = 1 leaves in rcx
      whether rax and rbx are equal. */
  lemma CompareMove(st: State)
    requires Rax in st.regs && Rbx in st.regs
    requires Rcx in st.regs && Rdx in st.regs && st.regs[Rcx] == 0 && st.regs[Rdx] == 1
    ensures var o := ExecSeq([Cmp(Rax, Rbx), Cmove(Rcx, Rdx)], st);
            && o.Continue? && o.st.stack == st.stack && o.st.out == st.out
            && Rcx in o.st.regs && o.st.regs[Rcx] == Flag(st.regs[Rax] == st.regs[Rbx])
  {
    ExecCons(Cmp(Rax, Rbx), [Cmove(Rcx, Rdx)], st);
    ExecSingle(Cmove(Rcx, Rdx), Step(Cmp(Rax, Rbx), st).st);
  }

  /** ... and `push rcx` pushes it. */
  lemma CompareTail(st: State)
    requires Rax in st.regs && Rbx in st.regs
    requires Rcx in st.regs && Rdx in st.regs && st.regs[Rcx] == 0 && st.regs[Rdx] == 1
    ensures var o := ExecSeq([Cmp(Rax, Rbx), Cmove(Rcx, Rdx), PushReg(Rcx)], st);
            o.Continue? && o.st.stack == st.stack + [Flag(st.regs[Rax] == st.regs[Rbx])] && o.st.out == st.out
  {
    assert [Cmp(Rax, Rbx), Cmove(Rcx, Rdx), PushReg(Rcx)] == [Cmp(Rax, Rbx), Cmove(Rcx, Rdx)] + [PushReg(Rcx)];
    ExecAppend([Cmp(Rax, Rbx), Cmove(Rcx, Rdx)], [PushReg(Rcx)], st);
    CompareMove(st);
    ExecSingle(PushReg(Rcx), ExecSeq([Cmp(Rax, Rbx), Cmove(Rcx, Rdx)], st).st);
  }

  /** `mov rcx, 0; mov rdx, 1` sets the two candidate results. */
  lemma CompareSetup(rest: seq<Instr>, st: State)
    ensures ExecSeq([MovImm(Rcx, 0), MovImm(Rdx, 1)] + rest, st) == ExecSeq(rest, Set(Set(st, Rcx, 0), Rdx, 1))
  {
    ExecAppend([MovImm(Rcx, 0), MovImm(Rdx, 1)], rest, st);
    ExecCons(MovImm(Rcx, 0), [MovImm(Rdx, 1)], st);
    ExecSingle(MovImm(Rdx, 1), Set(st, Rcx, 0));
  }

  lemma EqAt(st: State)
    ensures Agrees(ExecSeq(Block(Eq), st), Denote(Eq, View(st)))
  {
    var tail := [Cmp(Rax, Rbx), Cmove(Rcx, Rdx), PushReg(Rcx)];
    assert Block(Eq) == [MovImm(Rcx, 0), MovImm(Rdx, 1)] + ([Pop(Rax), Pop(Rbx)] + tail);
    CompareSetup([Pop(Rax), Pop(Rbx)] + tail, st);
    var st2 := Set(Set(st, Rcx, 0), Rdx, 1);
    AfterPopTwo(tail, st2);
    if |st.stack| >= 2 {
      var s := st.stack;
      CompareTail(PoppedTwo(st2));
      assert Denote(Eq, View(st)) == Some(Config(s[..|s| - 2] + [Flag(s[|s| - 2] == s[|s| - 1])], st.out));
    }
  }

  /** The comparison block pushes 1 when the two popped values are equal
      and 0 otherwise. */
  lemma EqImplements()
    ensures Implements(Block(Eq), Eq)
  {
    forall st: State
      ensures Agrees(ExecSeq(Block(Eq), st), Denote(Eq, View(st)))
    {
      EqAt(st);
    }
  }

  /** `pop rdi; call dump` prints the top value and drops it. */
  lemma DumpImplements()
    ensures Implements(Block(Dump), Dump)
  {
    forall st: State
      ensures Agrees(ExecSeq(Block(Dump), st), Denote(Dump, View(st)))
    {
      DumpAt(st);
    }
  }

  lemma DumpAt(st: State)
    ensures Agrees(ExecSeq(Block(Dump), st), Denote(Dump, View(st)))
  {
    ExecCons(Pop(Rdi), [CallDump], st);
    if |st.stack| > 0 {
      var s := st.stack;
      var st1 := Step(Pop(Rdi), st).st;
      assert st1.regs[Rdi] == s[|s| - 1] && st1.stack == s[..|s| - 1] && st1.out == st.out;
      ExecSingle(CallDump, st1);
      assert Denote(Dump, View(st)) == Some(Config(s[..|s| - 1], st.out + DumpText(s[|s| - 1])));
    }
  }

  lemma NopImplements()
    ensures Implements(Block(Nop), Nop)
  {
    forall st: State
      ensures Agrees(ExecSeq(Block(Nop), st), Denote(Nop, View(st)))
    {
      ExecSingle(NopInstr, st);
    }
  }

  /** Every straight-line block except division implements its operation. */
  lemma BlockImplements(op: Op)
    requires !IsControl(op) && !op.Div?
    ensures Implements(Block(op), op)
  {
    match op
    case Push(w) => PushImplements(w);
    case Add => AddImplements();
    case Sub => SubImplements();
    case Mul => MulImplements();
    case Eq => EqImplements();
    case Dump => DumpImplements();
    case Nop => NopImplements();
  }

  /** `cqo; idiv rbx; push rax` pushes rax divided by rbx. */
  lemma DivTail(st: State)
    requires Rax in st.regs && Rbx in st.regs
    ensures st.regs[Rbx] == 0 ==> ExecSeq([Cqo, Idiv(Rbx), PushReg(Rax)], st) == Fault
    ensures st.regs[Rbx] != 0 ==>
      var o := ExecSeq([Cqo, Idiv(Rbx), PushReg(Rax)], st);
      o.Continue? && o.st.stack == st.stack + [TruncDiv(st.regs[Rax], st.regs[Rbx])] && o.st.out == st.out
  {
    ExecCons(Cqo, [Idiv(Rbx), PushReg(Rax)], st);
    var st1 := Step(Cqo, st).st;
    ExecCons(Idiv(Rbx), [PushReg(Rax)], st1);
    if st.regs[Rbx] != 0 {
      ExecSingle(PushReg(Rax), Step(Idiv(Rbx), st1).st);
    }
  }

  /** The division block as written: it pops the top `b` into rax and the
      value `a` below it into rbx and divides rax by rbx, so it computes
      `b / a`, the operands the other way round from subtraction. */
  lemma DivAsWritten(st: State)
    requires |st.stack| >= 2 && st.stack[|st.stack| - 2] != 0
    ensures var s := st.stack;
            var o := ExecSeq(Block(Div), st);
            o.Continue? && o.st.stack == s[..|s| - 2] + [TruncDiv(s[|s| - 1], s[|s| - 2])]
  {
    assert Block(Div) == [Pop(Rax), Pop(Rbx)] + [Cqo, Idiv(Rbx), PushReg(Rax)];
    AfterPopTwo([Cqo, Idiv(Rbx), PushReg(Rax)], st);
    DivTail(PoppedTwo(st));
  }

  /** `10 2 /` leaves 0 (that is 2 / 10) where the language means 5. */
  lemma DivAsWrittenCounterexample()
    ensures !Implements(Block(Div), Div)
  {
    var st := State(map[], None, [10, 2], "");
    DivAsWritten(st);
    assert TruncDiv(2, 10) == 0;
    assert TruncDiv(10, 2) == 5;
    var c := View(st);
    assert c.stack == [10, 2];
    assert c.stack[..0] + [TruncDiv(c.stack[0], c.stack[1])] == [5];
    assert Denote(Div, View(st)) == Some(Config([5], ""));
    assert ExecSeq(Block(Div), st).st.stack == [0];
  }

  /** Blocks that each implement their operation, laid end to end,
      implement the whole sequence. */
  lemma {:induction false} ConcatImplements(blocks: seq<seq<Instr>>, ops: seq<Op>, st: State)
    requires |blocks| == |ops|
    requires forall i :: 0 <= i < |ops| ==> Implements(blocks[i], ops[i])
    ensures Agrees(ExecSeq(Concat(blocks), st), Interp(ops, View(st)))
    decreases |ops|
  {
    if ops != [] {
      ExecAppend(blocks[0], Concat(blocks[1..]), st);
      assert Implements(blocks[0], ops[0]);
      var o := ExecSeq(blocks[0], st);
      if o.Continue? {
        assert forall i :: 0 <= i < |ops| - 1 ==> Implements(blocks[1..][i], ops[1..][i]) by {
          forall i | 0 <= i < |ops| - 1
            ensures Implements(blocks[1..][i], ops[1..][i])
          {
            assert blocks[1..][i] == blocks[i + 1];
          }
        }
        ConcatImplements(blocks[1..], ops[1..], o.st);
      }
    }
  }

  /** A program of straight-line operations other than division runs on the
      machine exactly as the stack semantics says. */
  lemma ProgramImplements(ops: seq<Op>, st: State)
    requires forall i :: 0 <= i < |ops| ==> !IsControl(ops[i]) && !ops[i].Div?
    ensures Agrees(ExecSeq(Program(ops), st), Interp(ops, View(st)))
  {
    forall i | 0 <= i < |ops|
      ensures Implements(Blocks(ops)[i], ops[i])
    {
      BlockImplements(ops[i]);
    }
    ConcatImplements(Blocks(ops), ops, st);
  }

  /** The generated executable, from process start to `exit`. */
  function Run(ops: seq<Op>): Outcome {
    ExecSeq(Program(ops) + ExitSequence, Initial)
  }

  /** `exit(0)` from any state that ran on. */
  lemma ExitRuns(st: State)
    ensures ExecSeq(ExitSequence, st) == Exited(0, st.out)
  {
    ExecCons(MovImm(Rax, 60), [MovImm(Rdi, 0), Syscall], st);
    ExecCons(MovImm(Rdi, 0), [Syscall], Set(st, Rax, 60));
    ExecSingle(Syscall, Set(Set(st, Rax, 60), Rdi, 0));
  }

  /** A straight-line program prints what the stack semantics prints and
      exits with status 0, whatever is left on the stack; when the
      semantics fails, so does the executable. */
  lemma RunStraightLine(ops: seq<Op>)
    requires forall i :: 0 <= i < |ops| ==> !IsControl(ops[i]) && !ops[i].Div?
    ensures match Interp(ops, Config([], ""))
      case Some(c) => Run(ops) == Exited(0, c.out)
      case None => Run(ops) == Fault
  {
    ProgramImplements(ops, Initial);
    ExecAppend(Program(ops), ExitSequence, Initial);
    var o := ExecSeq(Program(ops), Initial);
    if o.Continue? {
      ExitRuns(o.st);
    }
  }

  /** `if` pops the condition and jumps to `.addr_1` when it is zero;
      otherwise execution falls into the next block. */
  lemma IfBlockBranches(st: State)
    ensures |st.stack| == 0 ==> ExecSeq(Block(If), st) == Fault
    ensures |st.stack| > 0 ==>
      var s := st.stack;
      var o := ExecSeq(Block(If), st);
      && (s[|s| - 1] == 0 ==> o.Jumped? && o.target == LabelIndex + 1 && o.st.stack == s[..|s| - 1])
      && (s[|s| - 1] != 0 ==> o.Continue? && o.st.stack == s[..|s| - 1])
  {
    assert Block(If) == [Pop(Rax)] + [Test(Rax), Jz(LabelIndex + 1)];
    ExecCons(Pop(Rax), [Test(Rax), Jz(LabelIndex + 1)], st);
    if |st.stack| > 0 {
      var st1 := Step(Pop(Rax), st).st;
      TestJump(st1);
    }
  }

  lemma TestJump(st: State)
    requires Rax in st.regs
    ensures var o := ExecSeq([Test(Rax), Jz(LabelIndex + 1)], st);
            && (st.regs[Rax] == 0 ==> o.Jumped? && o.target == LabelIndex + 1 && o.st.stack == st.stack)
            && (st.regs[Rax] != 0 ==> o.Continue? && o.st.stack == st.stack)
  {
    ExecCons(Test(Rax), [Jz(LabelIndex + 1)], st);
    ExecSingle(Jz(LabelIndex + 1), Step(Test(Rax), st).st);
  }

  /** `else` always jumps to `.addr_0`; `end` only marks a place. */
  lemma ElseEndBlocks(st: State)
    ensures ExecSeq(Block(Else), st) == Jumped(LabelIndex, st)
    ensures ExecSeq(Block(End), st) == Continue(st)
  {
    ExecCons(Jmp(LabelIndex), [Label(LabelIndex + 1)], st);
    ExecSingle(Label(LabelIndex), st);
  }
}
