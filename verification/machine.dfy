/** A small model of the target machine: what the emitted instructions do
    to registers, the zero flag, the native stack (which is the operand
    stack) and the output, for straight-line code. */
module Machine {
  import opened Results
  import opened Numerals
  import opened Asm

  /** Registers that have not been written (or were clobbered by the print
      routine) are absent from `regs`; a flag not set is `None`. */
  datatype State = State(regs: map<Reg, int>, zf: Option<bool>, stack: seq<int>, out: string)

  /** Where straight-line execution ends: it runs on, leaves for a label,
      exits the process, or faults (stack underflow, division by zero,
      reading a register never written, or an operand the model gives no
      value). */
  datatype Outcome =
    | Continue(st: State)
    | Jumped(target: nat, st: State)
    | Exited(code: int, out: string)
    | Fault

  /** Nothing written, nothing pushed, nothing printed. */
  const Initial: State := State(map[], None, [], "")

  /** Pushes a value onto the native stack. */
  function PushValue(st: State, v: int): State {
    st.(stack := st.stack + [v])
  }

  /** Sets a register to a computed value. */
  function Set(st: State, r: Reg, v: int): State {
    st.(regs := st.regs[r := v])
  }

  /** Executes one instruction. */
  function Step(i: Instr, st: State): Outcome {
    match i
    case PushImm(w) =>
      (match ParseInt(w)
       case Some(n) => Continue(PushValue(st, n))
       case None => Fault)
    case PushReg(r) =>
      if r in st.regs then Continue(PushValue(st, st.regs[r])) else Fault
    case Pop(r) =>
      if |st.stack| == 0 then Fault
      else Continue(Set(st, r, st.stack[|st.stack| - 1]).(stack := st.stack[..|st.stack| - 1]))
    case MovImm(r, n) => Continue(Set(st, r, n))
    case AddReg(d, s) =>
      if d in st.regs && s in st.regs then
        var v := st.regs[d] + st.regs[s];
        Continue(Set(st, d, v).(zf := Some(v == 0)))
      else Fault
    case SubReg(d, s) =>
      if d in st.regs && s in st.regs then
        var v := st.regs[d] - st.regs[s];
        Continue(Set(st, d, v).(zf := Some(v == 0)))
      else Fault
    case ImulReg(d, s) =>
      if d in st.regs && s in st.regs then Continue(Set(st, d, st.regs[d] * st.regs[s]).(zf := None))
      else Fault
    case Cqo =>
      if Rax in st.regs then Continue(Set(st, Rdx, if st.regs[Rax] < 0 then -1 else 0)) else Fault
    case Idiv(s) =>
      // the dividend is rdx:rax, which after `cqo` denotes rax itself
      if Rax in st.regs && Rdx in st.regs && s in st.regs
         && st.regs[Rdx] == (if st.regs[Rax] < 0 then -1 else 0) && st.regs[s] != 0
      then
        var q := TruncDiv(st.regs[Rax], st.regs[s]);
        Continue(Set(Set(st, Rax, q), Rdx, st.regs[Rax] - st.regs[s] * q).(zf := None))
      else Fault
    case Cmp(a, b) =>
      if a in st.regs && b in st.regs then Continue(st.(zf := Some(st.regs[a] == st.regs[b]))) else Fault
    case Cmove(d, s) =>
      (match st.zf
       case None => Fault
       case Some(z) =>
         if !z then Continue(st)
         else if s in st.regs then Continue(Set(st, d, st.regs[s]))
         else Fault)
    case Test(r) =>
      if r in st.regs then Continue(st.(zf := Some(st.regs[r] == 0))) else Fault
    case Jz(l) =>
      (match st.zf
       case None => Fault
       case Some(z) => if z then Jumped(l, st) else Continue(st))
    case Jmp(l) => Jumped(l, st)
    case Label(_) => Continue(st)
    case CallDump =>
      // prints rdi; of the registers modelled only rbx survives the call
      if Rdi in st.regs then
        Continue(st.(regs := if Rbx in st.regs then map[Rbx := st.regs[Rbx]] else map[],
                     zf := None,
                     out := st.out + DumpText(st.regs[Rdi])))
      else Fault
    case Syscall =>
      // only `exit` (number 60) is issued outside the print routine
      if Rax in st.regs && st.regs[Rax] == 60 && Rdi in st.regs then Exited(st.regs[Rdi], st.out)
      else Fault
    case NopInstr => Continue(st)
  }

  /** Continues with `rest` only if execution so far ran on. */
  function Then(o: Outcome, rest: seq<Instr>): Outcome {
    if o.Continue? then ExecSeq(rest, o.st) else o
  }

  /** Executes instructions in order until one leaves straight-line code. */
  function ExecSeq(code: seq<Instr>, st: State): Outcome {
    if code == [] then Continue(st)
    else
      var o := Step(code[0], st);
      if o.Continue? then ExecSeq(code[1..], o.st) else o
  }

  lemma ExecCons(i: Instr, rest: seq<Instr>, st: State)
    ensures ExecSeq([i] + rest, st) == Then(Step(i, st), rest)
  {
    assert ([i] + rest)[1..] == rest;
  }

  lemma ExecSingle(i: Instr, st: State)
    ensures ExecSeq([i], st) == Step(i, st)
  {
    assert [i][1..] == [];
  }

  /** Execution is sequential: running `a + b` runs `a`, then `b` if `a`
      ran on. */
  lemma {:induction false} ExecAppend(a: seq<Instr>, b: seq<Instr>, st: State)
    ensures ExecSeq(a + b, st) == Then(ExecSeq(a, st), b)
    decreases |a|
  {
    if a == [] {
      assert a + b == b;
    } else {
      assert (a + b)[1..] == a[1..] + b;
      var o := Step(a[0], st);
      if o.Continue? {
        ExecAppend(a[1..], b, o.st);
      }
    }
  }
}
