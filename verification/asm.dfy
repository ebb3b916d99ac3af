/** The instructions the code generator writes, each rendered to the exact
    text of `generate_asm`, and the label discipline the assembler enforces
    on them. */
module Asm {
  import opened Numerals

  /** The registers the emitted operation blocks use. */
  datatype Reg = Rax | Rbx | Rcx | Rdx | Rdi

  function RegName(r: Reg): string {
    match r
    case Rax => "rax"
    case Rbx => "rbx"
    case Rcx => "rcx"
    case Rdx => "rdx"
    case Rdi => "rdi"
  }

  /** One line of emitted assembly. Labels are numbered: `Label(n)` defines
      `.addr_n`, `Jz(n)` and `Jmp(n)` refer to it. */
  datatype Instr =
    | PushImm(word: string)
    | PushReg(src: Reg)
    | Pop(dst: Reg)
    | MovImm(dst: Reg, imm: nat)
    | AddReg(dst: Reg, src: Reg)
    | SubReg(dst: Reg, src: Reg)
    | ImulReg(dst: Reg, src: Reg)
    | Cqo
    | Idiv(src: Reg)
    | Cmp(left: Reg, right: Reg)
    | Cmove(dst: Reg, src: Reg)
    | Test(reg: Reg)
    | Jz(target: nat)
    | Jmp(target: nat)
    | Label(name: nat)
    | CallDump
    | Syscall
    | NopInstr

  /** The name of numbered label `n`. */
  function LabelName(n: nat): string {
    ".addr_" + NatToString(n)
  }

  /** Distinct label numbers have distinct names. */
  lemma LabelNameInjective(a: nat, b: nat)
    ensures LabelName(a) == LabelName(b) <==> a == b
  {
    if LabelName(a) == LabelName(b) {
      assert LabelName(a)[6..] == NatToString(a);
      assert LabelName(b)[6..] == NatToString(b);
      NatToStringInjective(a, b);
    }
  }

  function Indented(text: string): string {
    "    " + text + "\n"
  }

  function Binary(mnemonic: string, dst: Reg, src: Reg): string {
    Indented(mnemonic + " " + RegName(dst) + ", " + RegName(src))
  }

  /** The text of one instruction, spaced as `generate_asm` spaces it. */
  function Render(i: Instr): string {
    match i
    case PushImm(w) => Indented("push " + w)
    case PushReg(r) => Indented("push " + RegName(r))
    case Pop(r) => Indented("pop " + RegName(r))
    case MovImm(r, n) => Indented("mov " + RegName(r) + ", " + NatToString(n))
    case AddReg(d, s) => Binary("add", d, s)
    case SubReg(d, s) => Binary("sub", d, s)
    case ImulReg(d, s) => Binary("imul", d, s)
    case Cqo => Indented("cqo")
    case Idiv(s) => Indented("idiv " + RegName(s))
    case Cmp(a, b) => Binary("cmp", a, b)
    case Cmove(d, s) => Binary("cmove", d, s)
    case Test(r) => Binary("test", r, r)
    case Jz(n) => Indented("jz " + LabelName(n))
    case Jmp(n) => Indented("jmp " + LabelName(n))
    case Label(n) => "\n" + LabelName(n) + ":\n"
    case CallDump => Indented("call dump")
    case Syscall => Indented("syscall")
    case NopInstr => Indented("nop")
  }

  /** The text of an instruction sequence. */
  function Text(code: seq<Instr>): string {
    if code == [] then "" else Render(code[0]) + Text(code[1..])
  }

  lemma {:induction false} TextAppend(a: seq<Instr>, b: seq<Instr>)
    ensures Text(a + b) == Text(a) + Text(b)
    decreases |a|
  {
    if a != [] {
      assert (a + b)[1..] == a[1..] + b;
      TextAppend(a[1..], b);
    } else {
      assert a + b == b;
    }
  }

  lemma TextCons(i: Instr, rest: seq<Instr>)
    ensures Text([i] + rest) == Render(i) + Text(rest)
  {
    assert ([i] + rest)[1..] == rest;
  }

  lemma TextSingle(i: Instr)
    ensures Text([i]) == Render(i)
  {
    assert [i][1..] == [];
  }

  lemma LabelsSingle(i: Instr)
    ensures Defs([i]) == if i.Label? then [i.name] else []
    ensures Refs([i]) == if i.Jz? || i.Jmp? then {i.target} else {}
  {
    assert [i][1..] == [];
  }

  /** A sequence without labels defines none. */
  lemma {:induction false} DefsNoLabels(code: seq<Instr>)
    requires forall k :: 0 <= k < |code| ==> !code[k].Label?
    ensures Defs(code) == []
    decreases |code|
  {
    if code != [] {
      DefsNoLabels(code[1..]);
    }
  }

  /** A sequence without jumps refers to no label. */
  lemma {:induction false} RefsNoJumps(code: seq<Instr>)
    requires forall k :: 0 <= k < |code| ==> !code[k].Jz? && !code[k].Jmp?
    ensures Refs(code) == {}
    decreases |code|
  {
    if code != [] {
      RefsNoJumps(code[1..]);
    }
  }

  /** The blocks of a program laid end to end. */
  function Concat(bs: seq<seq<Instr>>): seq<Instr> {
    if bs == [] then [] else bs[0] + Concat(bs[1..])
  }

  lemma {:induction false} ConcatAppend(a: seq<seq<Instr>>, b: seq<seq<Instr>>)
    ensures Concat(a + b) == Concat(a) + Concat(b)
    decreases |a|
  {
    if a != [] {
      assert (a + b)[1..] == a[1..] + b;
      ConcatAppend(a[1..], b);
    } else {
      assert a + b == b;
    }
  }

  /** The labels an instruction sequence defines, in order, repeats kept. */
  function Defs(code: seq<Instr>): seq<nat> {
    if code == [] then [] else (if code[0].Label? then [code[0].name] else []) + Defs(code[1..])
  }

  /** The labels an instruction sequence jumps to. */
  function Refs(code: seq<Instr>): set<nat> {
    if code == [] then {}
    else (if code[0].Jz? || code[0].Jmp? then {code[0].target} else {}) + Refs(code[1..])
  }

  /** What the assembler demands of numbered labels: none is defined twice
      and every one jumped to is defined. */
  predicate Assembles(code: seq<Instr>) {
    LabelsUnique(code) && JumpsResolve(code)
  }

  /** No label is defined twice. */
  predicate LabelsUnique(code: seq<Instr>) {
    forall l :: l in Defs(code) ==> multiset(Defs(code))[l] <= 1
  }

  /** Every label jumped to is defined. */
  predicate JumpsResolve(code: seq<Instr>) {
    forall l :: l in Refs(code) ==> l in Defs(code)
  }

  lemma {:induction false} DefsAppend(a: seq<Instr>, b: seq<Instr>)
    ensures Defs(a + b) == Defs(a) + Defs(b)
    decreases |a|
  {
    if a != [] {
      assert (a + b)[1..] == a[1..] + b;
      DefsAppend(a[1..], b);
    } else {
      assert a + b == b;
    }
  }

  lemma {:induction false} RefsAppend(a: seq<Instr>, b: seq<Instr>)
    ensures Refs(a + b) == Refs(a) + Refs(b)
    decreases |a|
  {
    if a != [] {
      assert (a + b)[1..] == a[1..] + b;
      RefsAppend(a[1..], b);
    } else {
      assert a + b == b;
    }
  }

  /** A label is jumped to in a program iff some block of it jumps there. */
  lemma {:induction false} RefsConcat(bs: seq<seq<Instr>>, l: nat)
    ensures l in Refs(Concat(bs)) <==> exists j :: 0 <= j < |bs| && l in Refs(bs[j])
    decreases |bs|
  {
    if bs != [] {
      RefsAppend(bs[0], Concat(bs[1..]));
      RefsConcat(bs[1..], l);
      if l in Refs(Concat(bs[1..])) {
        var j :| 0 <= j < |bs| - 1 && l in Refs(bs[1..][j]);
        assert l in Refs(bs[j + 1]);
      }
      if exists j :: 0 <= j < |bs| && l in Refs(bs[j]) {
        var j :| 0 <= j < |bs| && l in Refs(bs[j]);
        if j > 0 {
          assert l in Refs(bs[1..][j - 1]);
        }
      }
    }
  }

  /** Block `j` of `bs` defines no label or only the label `k + j`. */
  predicate DefinesOwnIndex(bs: seq<seq<Instr>>, k: nat) {
    forall j :: 0 <= j < |bs| ==> Defs(bs[j]) == [] || Defs(bs[j]) == [k + j]
  }

  lemma DefinesOwnIndexRest(bs: seq<seq<Instr>>, k: nat)
    requires bs != [] && DefinesOwnIndex(bs, k)
    ensures DefinesOwnIndex(bs[1..], k + 1)
  {
    forall j | 0 <= j < |bs| - 1
      ensures Defs(bs[1..][j]) == [] || Defs(bs[1..][j]) == [k + 1 + j]
    {
      assert bs[1..][j] == bs[j + 1];
    }
  }

  /** When every block defines at most its own number, a label is defined
      by the program iff the block of that number defines one. */
  lemma {:induction false} IndexedDefsMember(bs: seq<seq<Instr>>, k: nat, l: nat)
    requires DefinesOwnIndex(bs, k)
    ensures l in Defs(Concat(bs)) <==> k <= l < k + |bs| && Defs(bs[l - k]) != []
    decreases |bs|
  {
    if bs != [] {
      DefinesOwnIndexRest(bs, k);
      IndexedDefsMember(bs[1..], k + 1, l);
      DefsAppend(bs[0], Concat(bs[1..]));
      HeadDefs(bs, k, l);
      if k < l < k + |bs| {
        assert bs[l - k] == bs[1..][l - (k + 1)];
      }
    }
  }

  lemma HeadDefs(bs: seq<seq<Instr>>, k: nat, l: nat)
    requires bs != [] && DefinesOwnIndex(bs, k)
    ensures l in Defs(bs[0]) <==> l == k && Defs(bs[0]) != []
  {
    assert Defs(bs[0]) == [] || Defs(bs[0]) == [k + 0];
  }

  /** ... and no label is defined twice. */
  lemma {:induction false} IndexedDefsUnique(bs: seq<seq<Instr>>, k: nat, l: nat)
    requires DefinesOwnIndex(bs, k)
    ensures multiset(Defs(Concat(bs)))[l] <= 1
    decreases |bs|
  {
    if bs != [] {
      DefinesOwnIndexRest(bs, k);
      IndexedDefsUnique(bs[1..], k + 1, l);
      IndexedDefsMember(bs[1..], k + 1, l);
      DefsAppend(bs[0], Concat(bs[1..]));
      assert multiset(Defs(Concat(bs))) == multiset(Defs(bs[0])) + multiset(Defs(Concat(bs[1..])));
    }
  }

  /** When every block defines at most its own number, a label is defined
      if every block that jumps to it points at a block that defines one. */
  lemma RefsDefinedBy(bs: seq<seq<Instr>>, l: nat)
    requires DefinesOwnIndex(bs, 0)
    requires l in Refs(Concat(bs))
    requires forall j :: 0 <= j < |bs| && l in Refs(bs[j]) ==> l < |bs| && Defs(bs[l]) != []
    ensures l in Defs(Concat(bs))
  {
    RefsConcat(bs, l);
    var j :| 0 <= j < |bs| && l in Refs(bs[j]);
    assert l < |bs| && Defs(bs[l]) != [];
    IndexedDefsMember(bs, 0, l);
  }
}
