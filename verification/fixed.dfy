/** A corrected code generator. Control-flow labels are numbered by the
    position of the operation that defines them, and every `if` and `else`
    is paired with the operation that closes it by a pushdown pass before
    any code is written; division pops its operands in the order the
    language defines. */
module Fixed {
  import opened Results
  import opened Ops
  import opened Asm
  import opened CodeGen
  import opened StackSemantics
  import opened Machine
  import opened Correctness

  /** Why a program is not well bracketed; `at` is the offending position. */
  datatype StructError =
    | ElseWithoutIf(at: nat)
    | EndWithoutOpen(at: nat)
    | Unclosed(at: nat)

  /** Reference definition of well-bracketed programs, as a pushdown
      automaton: `open` holds the kinds of the blocks still open, innermost
      last. An `else` needs an open `if`, which it turns into an open
      `else`; an `end` closes whatever is open. */
  predicate Accepts(ops: seq<Op>, open: seq<Op>)
    decreases |ops|
  {
    if ops == [] then open == []
    else
      var n := |open|;
      match ops[0]
      case If => Accepts(ops[1..], open + [If])
      case Else => n > 0 && open[n - 1].If? && Accepts(ops[1..], open[..n - 1] + [Else])
      case End => n > 0 && Accepts(ops[1..], open[..n - 1])
      case _ => Accepts(ops[1..], open)
  }

  predicate Structured(ops: seq<Op>) {
    Accepts(ops, [])
  }

  /** `m` maps the position of every `if` and `else` to the position of the
      operation that closes it; each closer closes exactly one opener and
      the pairs nest like brackets. */
  predicate Matching(ops: seq<Op>, m: map<nat, nat>) {
    && (forall i :: i in m ==> i < m[i] < |ops| && Closes(ops[i], ops[m[i]]))
    && (forall i :: 0 <= i < |ops| && IsOpener(ops[i]) ==> i in m)
    && (forall i, j :: i in m && j in m && m[i] == m[j] ==> i == j)
    && (forall j :: 0 <= j < |ops| && IsCloser(ops[j]) ==> exists i :: i in m && m[i] == j)
    && (forall i, j :: i in m && j in m && i < j < m[i] ==> m[j] < m[i])
  }

  /** The open positions: increasing, read already, openers, unpaired. */
  predicate StackOk(ops: seq<Op>, k: nat, stack: seq<nat>, m: map<nat, nat>) {
    && (forall a, b :: 0 <= a < b < |stack| ==> stack[a] < stack[b])
    && (forall a :: 0 <= a < |stack| ==> stack[a] < k && stack[a] < |ops| && IsOpener(ops[stack[a]]) && stack[a] !in m)
  }

  /** Every pair read so far is an opener and a closer that may close it. */
  predicate PairsOk(ops: seq<Op>, k: nat, m: map<nat, nat>) {
    k <= |ops| && forall i :: i in m ==> i < m[i] < k && Closes(ops[i], ops[m[i]])
  }

  /** Every opener read so far is paired or still open. */
  predicate Covered(ops: seq<Op>, k: nat, stack: seq<nat>, m: map<nat, nat>) {
    k <= |ops| && forall i :: 0 <= i < k && IsOpener(ops[i]) ==> i in m || i in stack
  }

  /** No closer closes two openers. */
  predicate Injective(m: map<nat, nat>) {
    forall i, j :: i in m && j in m && m[i] == m[j] ==> i == j
  }

  /** Every closer read so far closes something. */
  predicate ClosersPaired(ops: seq<Op>, k: nat, m: map<nat, nat>) {
    k <= |ops| && forall j :: 0 <= j < k && IsCloser(ops[j]) ==> exists i :: i in m && m[i] == j
  }

  /** Pairs nest like brackets. */
  predicate Nested(m: map<nat, nat>) {
    forall i, j :: i in m && j in m && i < j < m[i] ==> m[j] < m[i]
  }

  /** No open position lies inside a pair. */
  predicate Separated(stack: seq<nat>, m: map<nat, nat>) {
    forall i, a :: i in m && 0 <= a < |stack| ==> !(i < stack[a] < m[i])
  }

  /** The invariant of the pairing pass after it has read `ops[..k]`:
      `stack` holds, in increasing order, the openers not closed yet, and
      `m` pairs every other opener read so far. */
  predicate PartialMatching(ops: seq<Op>, k: nat, stack: seq<nat>, m: map<nat, nat>) {
    && k <= |ops|
    && StackOk(ops, k, stack, m)
    && PairsOk(ops, k, m)
    && Covered(ops, k, stack, m)
    && Injective(m)
    && ClosersPaired(ops, k, m)
    && Nested(m)
    && Separated(stack, m)
  }

  /** The kinds of the open blocks on a stack of positions. */
  function Kinds(ops: seq<Op>, stack: seq<nat>): (r: seq<Op>)
    requires forall a :: 0 <= a < |stack| ==> stack[a] < |ops|
    ensures |r| == |stack| && forall a :: 0 <= a < |stack| ==> r[a] == ops[stack[a]]
  {
    seq(|stack|, a requires 0 <= a < |stack| => ops[stack[a]])
  }

  /** What a reported error points at. */
  predicate Blame(ops: seq<Op>, e: StructError) {
    match e
    case ElseWithoutIf(at) => at < |ops| && ops[at].Else?
    case EndWithoutOpen(at) => at < |ops| && ops[at].End?
    case Unclosed(at) => at < |ops| && IsOpener(ops[at])
  }

  lemma StartMatching(ops: seq<Op>)
    ensures PartialMatching(ops, 0, [], map[])
  {
  }

  lemma FinishMatching(ops: seq<Op>, m: map<nat, nat>)
    requires PartialMatching(ops, |ops|, [], m)
    ensures Matching(ops, m)
  {
  }

  /** Reading an operation that neither opens nor closes keeps the
      invariant. */
  lemma SkipKeeps(ops: seq<Op>, k: nat, stack: seq<nat>, m: map<nat, nat>)
    requires k < |ops| && !IsControl(ops[k])
    requires PartialMatching(ops, k, stack, m)
    ensures PartialMatching(ops, k + 1, stack, m)
  {
    forall j | 0 <= j < k + 1 && IsCloser(ops[j])
      ensures exists i :: i in m && m[i] == j
    {
      assert j < k;
    }
  }

  /** Reading an `if` pushes its position. */
  lemma OpenKeeps(ops: seq<Op>, k: nat, stack: seq<nat>, m: map<nat, nat>)
    requires k < |ops| && ops[k].If?
    requires PartialMatching(ops, k, stack, m)
    ensures PartialMatching(ops, k + 1, stack + [k], m)
  {
    var s' := stack + [k];
    forall i | 0 <= i < k + 1 && IsOpener(ops[i])
      ensures i in m || i in s'
    {
      if i < k && i in stack {
        var a :| 0 <= a < |stack| && stack[a] == i;
        assert s'[a] == i;
      }
      if i == k {
        assert s'[|stack|] == k;
      }
    }
    forall j | 0 <= j < k + 1 && IsCloser(ops[j])
      ensures exists i :: i in m && m[i] == j
    {
      assert j < k;
    }
  }

  /** The open positions after reading the closer at `k`: the innermost
      one goes, and an `else` becomes open in its place. */
  function AfterClose(ops: seq<Op>, k: nat, stack: seq<nat>): seq<nat>
    requires k < |ops| && stack != []
  {
    var rest := stack[..|stack| - 1];
    if ops[k].Else? then rest + [k] else rest
  }

  /** The precondition of every step lemma for a closer at `k`. */
  predicate CanClose(ops: seq<Op>, k: nat, stack: seq<nat>, m: map<nat, nat>) {
    && k < |ops| && IsCloser(ops[k]) && stack != []
    && PartialMatching(ops, k, stack, m)
    && Closes(ops[stack[|stack| - 1]], ops[k])
  }

  lemma AfterCloseAt(ops: seq<Op>, k: nat, stack: seq<nat>, a: nat)
    requires k < |ops| && stack != [] && a < |AfterClose(ops, k, stack)|
    ensures AfterClose(ops, k, stack)[a] == if a < |stack| - 1 then stack[a] else k
  {
  }

  /** The openers strictly between the innermost open block `t` and `k`
      are paired, and closed before `k`. */
  lemma InnerPaired(ops: seq<Op>, k: nat, stack: seq<nat>, m: map<nat, nat>, j: nat)
    requires CanClose(ops, k, stack, m)
    requires stack[|stack| - 1] < j < k && IsOpener(ops[j])
    ensures j in m && m[j] < k
  {
  }

  lemma CloseStack(ops: seq<Op>, k: nat, stack: seq<nat>, m: map<nat, nat>)
    requires CanClose(ops, k, stack, m)
    ensures StackOk(ops, k + 1, AfterClose(ops, k, stack), m[stack[|stack| - 1] := k])
  {
    var s' := AfterClose(ops, k, stack);
    forall a, b | 0 <= a < b < |s'|
      ensures s'[a] < s'[b]
    {
      AfterCloseAt(ops, k, stack, a);
      AfterCloseAt(ops, k, stack, b);
    }
    forall a | 0 <= a < |s'|
      ensures s'[a] < k + 1 && s'[a] < |ops| && IsOpener(ops[s'[a]]) && s'[a] !in m[stack[|stack| - 1] := k]
    {
      AfterCloseAt(ops, k, stack, a);
      if a < |stack| - 1 {
        assert stack[a] < stack[|stack| - 1];
      }
    }
  }

  lemma ClosePairs(ops: seq<Op>, k: nat, stack: seq<nat>, m: map<nat, nat>)
    requires CanClose(ops, k, stack, m)
    ensures PairsOk(ops, k + 1, m[stack[|stack| - 1] := k])
  {
  }

  lemma CloseCovered(ops: seq<Op>, k: nat, stack: seq<nat>, m: map<nat, nat>)
    requires CanClose(ops, k, stack, m)
    ensures Covered(ops, k + 1, AfterClose(ops, k, stack), m[stack[|stack| - 1] := k])
  {
    var s' := AfterClose(ops, k, stack);
    var m' := m[stack[|stack| - 1] := k];
    forall i | 0 <= i < k + 1 && IsOpener(ops[i])
      ensures i in m' || i in s'
    {
      if i < k && i !in m {
        assert i in stack;
        var a :| 0 <= a < |stack| && stack[a] == i;
        if a < |stack| - 1 {
          AfterCloseAt(ops, k, stack, a);
        }
      }
      if i == k {
        AfterCloseAt(ops, k, stack, |stack| - 1);
      }
    }
  }

  lemma CloseInjective(ops: seq<Op>, k: nat, stack: seq<nat>, m: map<nat, nat>)
    requires CanClose(ops, k, stack, m)
    ensures Injective(m[stack[|stack| - 1] := k])
  {
    var t := stack[|stack| - 1];
    var m' := m[t := k];
    forall i, j | i in m' && j in m' && m'[i] == m'[j]
      ensures i == j
    {
      if i == t && j != t {
        assert m[j] < k;
      }
    }
  }

  lemma CloseClosers(ops: seq<Op>, k: nat, stack: seq<nat>, m: map<nat, nat>)
    requires CanClose(ops, k, stack, m)
    ensures ClosersPaired(ops, k + 1, m[stack[|stack| - 1] := k])
  {
    var t := stack[|stack| - 1];
    var m' := m[t := k];
    forall j | 0 <= j < k + 1 && IsCloser(ops[j])
      ensures exists i :: i in m' && m'[i] == j
    {
      if j == k {
        assert m'[t] == k;
      } else {
        var i :| i in m && m[i] == j;
        assert i != t;
        assert m'[i] == j;
      }
    }
  }

  lemma CloseNested(ops: seq<Op>, k: nat, stack: seq<nat>, m: map<nat, nat>)
    requires CanClose(ops, k, stack, m)
    ensures Nested(m[stack[|stack| - 1] := k])
  {
    var t := stack[|stack| - 1];
    var m' := m[t := k];
    forall i, j | i in m' && j in m' && i < j < m'[i]
      ensures m'[j] < m'[i]
    {
      if i == t {
        InnerPaired(ops, k, stack, m, j);
      }
    }
  }

  lemma CloseSeparated(ops: seq<Op>, k: nat, stack: seq<nat>, m: map<nat, nat>)
    requires CanClose(ops, k, stack, m)
    ensures Separated(AfterClose(ops, k, stack), m[stack[|stack| - 1] := k])
  {
    var t := stack[|stack| - 1];
    var s' := AfterClose(ops, k, stack);
    var m' := m[t := k];
    forall i, a | i in m' && 0 <= a < |s'|
      ensures !(i < s'[a] < m'[i])
    {
      AfterCloseAt(ops, k, stack, a);
      if a < |stack| - 1 {
        assert stack[a] < t;
      }
    }
  }

  /** Reading a closer at `k` pairs it with the innermost open block. */
  lemma CloseKeeps(ops: seq<Op>, k: nat, stack: seq<nat>, m: map<nat, nat>)
    requires CanClose(ops, k, stack, m)
    ensures PartialMatching(ops, k + 1, AfterClose(ops, k, stack), m[stack[|stack| - 1] := k])
  {
    CloseStack(ops, k, stack, m);
    ClosePairs(ops, k, stack, m);
    CloseCovered(ops, k, stack, m);
    CloseInjective(ops, k, stack, m);
    CloseClosers(ops, k, stack, m);
    CloseNested(ops, k, stack, m);
    CloseSeparated(ops, k, stack, m);
  }

  /** Each step's effect on the pushdown reference. */
  lemma KindsPush(ops: seq<Op>, stack: seq<nat>, k: nat)
    requires k < |ops| && forall a :: 0 <= a < |stack| ==> stack[a] < |ops|
    ensures Kinds(ops, stack + [k]) == Kinds(ops, stack) + [ops[k]]
  {
  }

  lemma KindsPop(ops: seq<Op>, stack: seq<nat>)
    requires stack != [] && forall a :: 0 <= a < |stack| ==> stack[a] < |ops|
    ensures Kinds(ops, stack[..|stack| - 1]) == Kinds(ops, stack)[..|stack| - 1]
  {
  }

  lemma AcceptsTail(ops: seq<Op>, k: nat)
    requires k < |ops|
    ensures ops[k..] != [] && ops[k..][0] == ops[k] && ops[k..][1..] == ops[k + 1..]
  {
  }

  /** Positions on the stack lie in the program. */
  predicate InRange(ops: seq<Op>, stack: seq<nat>) {
    forall a :: 0 <= a < |stack| ==> stack[a] < |ops|
  }

  /** The pairing pass from position `k`: an `if` opens a block, an `else`
      closes an open `if` and opens a block of its own, an `end` closes the
      innermost open block; each close records the pair in `m`. */
  function ResolveFrom(ops: seq<Op>, k: nat, stack: seq<nat>, m: map<nat, nat>): (r: Result<map<nat, nat>, StructError>)
    requires k <= |ops| && InRange(ops, stack)
    ensures r.Failure? ==> r.error.at < |ops|
    decreases |ops| - k
  {
    if k == |ops| then
      if stack == [] then Success(m) else Failure(Unclosed(stack[|stack| - 1]))
    else
      var n := |stack|;
      match ops[k]
      case If => ResolveFrom(ops, k + 1, stack + [k], m)
      case Else =>
        if n == 0 || !ops[stack[n - 1]].If? then Failure(ElseWithoutIf(k))
        else ResolveFrom(ops, k + 1, stack[..n - 1] + [k], m[stack[n - 1] := k])
      case End =>
        if n == 0 then Failure(EndWithoutOpen(k))
        else ResolveFrom(ops, k + 1, stack[..n - 1], m[stack[n - 1] := k])
      case _ => ResolveFrom(ops, k + 1, stack, m)
  }

  /** What the pass promises from a state of the pairing invariant. */
  predicate ResolvedWell(ops: seq<Op>, k: nat, stack: seq<nat>, m: map<nat, nat>)
    requires k <= |ops| && InRange(ops, stack)
  {
    var r := ResolveFrom(ops, k, stack, m);
    && (r.Success? <==> Accepts(ops[k..], Kinds(ops, stack)))
    && (r.Success? ==> Matching(ops, r.value))
    && (r.Failure? ==> Blame(ops, r.error))
  }

  /** From any state satisfying the invariant, the pass fails exactly when
      the rest of the program is not accepted from the open blocks on the
      stack, blames an operation of the right kind when it fails, and
      returns a full matching when it succeeds. */
  lemma {:induction false} ResolveFromCorrect(ops: seq<Op>, k: nat, stack: seq<nat>, m: map<nat, nat>)
    requires PartialMatching(ops, k, stack, m)
    ensures ResolvedWell(ops, k, stack, m)
    decreases |ops| - k, 2
  {
    if k == |ops| {
      assert ops[k..] == [];
      if stack == [] {
        FinishMatching(ops, m);
      }
    } else if ops[k].If? {
      ResolveOpen(ops, k, stack, m);
    } else if IsCloser(ops[k]) {
      ResolveClose(ops, k, stack, m);
    } else {
      ResolveSkip(ops, k, stack, m);
    }
  }

  lemma {:induction false} ResolveOpen(ops: seq<Op>, k: nat, stack: seq<nat>, m: map<nat, nat>)
    requires PartialMatching(ops, k, stack, m) && k < |ops| && ops[k].If?
    ensures ResolvedWell(ops, k, stack, m)
    decreases |ops| - k, 0
  {
    AcceptsTail(ops, k);
    OpenKeeps(ops, k, stack, m);
    KindsPush(ops, stack, k);
    ResolveFromCorrect(ops, k + 1, stack + [k], m);
  }

  lemma {:induction false} ResolveSkip(ops: seq<Op>, k: nat, stack: seq<nat>, m: map<nat, nat>)
    requires PartialMatching(ops, k, stack, m) && k < |ops| && !IsControl(ops[k])
    ensures ResolvedWell(ops, k, stack, m)
    decreases |ops| - k, 0
  {
    AcceptsTail(ops, k);
    SkipKeeps(ops, k, stack, m);
    ResolveFromCorrect(ops, k + 1, stack, m);
  }

  lemma {:induction false} ResolveClose(ops: seq<Op>, k: nat, stack: seq<nat>, m: map<nat, nat>)
    requires PartialMatching(ops, k, stack, m) && k < |ops| && IsCloser(ops[k])
    ensures ResolvedWell(ops, k, stack, m)
    decreases |ops| - k, 1
  {
    var n := |stack|;
    if n > 0 && Closes(ops[stack[n - 1]], ops[k]) {
      CloseKeeps(ops, k, stack, m);
      ResolvePair(ops, k, stack, m);
    } else {
      CloseFails(ops, k, stack, m);
    }
  }

  /** A closer that closes the innermost open block: the pass continues
      from the popped stack with the new pair recorded. */
  lemma {:induction false} ResolvePair(ops: seq<Op>, k: nat, stack: seq<nat>, m: map<nat, nat>)
    requires k < |ops| && IsCloser(ops[k]) && InRange(ops, stack) && stack != []
    requires Closes(ops[stack[|stack| - 1]], ops[k])
    requires PartialMatching(ops, k + 1, AfterClose(ops, k, stack), m[stack[|stack| - 1] := k])
    ensures ResolvedWell(ops, k, stack, m)
    decreases |ops| - k, 0
  {
    ResolveFromCorrect(ops, k + 1, AfterClose(ops, k, stack), m[stack[|stack| - 1] := k]);
    CloseRelates(ops, k, stack, m);
  }

  /** A closer that closes the innermost open block: one step of the pass
      and one step of the reference agree. */
  lemma CloseRelates(ops: seq<Op>, k: nat, stack: seq<nat>, m: map<nat, nat>)
    requires k < |ops| && IsCloser(ops[k]) && InRange(ops, stack) && stack != []
    requires Closes(ops[stack[|stack| - 1]], ops[k])
    requires ResolvedWell(ops, k + 1, AfterClose(ops, k, stack), m[stack[|stack| - 1] := k])
    ensures ResolvedWell(ops, k, stack, m)
  {
    AcceptsTail(ops, k);
    KindsPop(ops, stack);
    if ops[k].Else? {
      KindsPush(ops, stack[..|stack| - 1], k);
    }
  }

  /** A closer with nothing it may close is blamed, and rejected by the
      reference too. */
  lemma CloseFails(ops: seq<Op>, k: nat, stack: seq<nat>, m: map<nat, nat>)
    requires k < |ops| && IsCloser(ops[k]) && InRange(ops, stack)
    requires stack == [] || !Closes(ops[stack[|stack| - 1]], ops[k])
    requires forall a :: 0 <= a < |stack| ==> IsOpener(ops[stack[a]])
    ensures ResolvedWell(ops, k, stack, m)
  {
    AcceptsTail(ops, k);
  }

  /** Pairs the openers of a whole program with their closers. */
  function Resolve(ops: seq<Op>): (r: Result<map<nat, nat>, StructError>)
    ensures r.Success? <==> Structured(ops)
    ensures r.Success? ==> Matching(ops, r.value)
    ensures r.Failure? ==> Blame(ops, r.error)
  {
    StartMatching(ops);
    ResolveFromCorrect(ops, 0, [], map[]);
    assert ops[0..] == ops;
    ResolveFrom(ops, 0, [], map[])
  }

  /** Division with the operands in the language's order: the top `b` goes
      to rbx, the value `a` below it to rax, and `idiv rbx` leaves `a / b`. */
  const DivBlock: seq<Instr> := [Pop(Rbx), Pop(Rax), Cqo, Idiv(Rbx), PushReg(Rax)]

  /** The block for the operation at position `i`; an `if` or `else` jumps
      to the label of its closer `target`, an `else` or `end` defines the
      label of its own position. */
  function FixedBlock(op: Op, i: nat, target: nat): seq<Instr> {
    match op
    case If => [Pop(Rax), Test(Rax), Jz(target)]
    case Else => [Jmp(target), Label(i)]
    case End => [Label(i)]
    case Div => DivBlock
    case _ => Block(op)
  }

  /** Every opener has a closer. */
  predicate Targets(ops: seq<Op>, m: map<nat, nat>) {
    forall i :: 0 <= i < |ops| && IsOpener(ops[i]) ==> i in m
  }

  function FixedBlocks(ops: seq<Op>, m: map<nat, nat>): seq<seq<Instr>>
    requires Targets(ops, m)
  {
    seq(|ops|, i requires 0 <= i < |ops| => FixedBlock(ops[i], i, if IsOpener(ops[i]) then m[i] else i))
  }

  function FixedProgram(ops: seq<Op>, m: map<nat, nat>): seq<Instr>
    requires Targets(ops, m)
  {
    Concat(FixedBlocks(ops, m))
  }

  /** The corrected translator: a program that is not well bracketed is
      rejected with the position to blame; any other is compiled. */
  function Compile(ops: seq<Op>): (r: Result<string, StructError>)
    ensures r.Success? <==> Structured(ops)
    ensures r.Failure? ==> Blame(ops, r.error)
  {
    match Resolve(ops)
    case Failure(e) => Failure(e)
    case Success(m) => Success(Preamble + Text(FixedProgram(ops, m)) + Text(ExitSequence))
  }

  /** The labels one corrected block defines and jumps to. */
  lemma FixedBlockLabels(op: Op, i: nat, target: nat)
    ensures Defs(FixedBlock(op, i, target)) == if op.Else? || op.End? then [i] else []
    ensures Refs(FixedBlock(op, i, target)) == if op.If? || op.Else? then {target} else {}
  {
    match op
    case If => FixedIfLabels(i, target);
    case Else => FixedElseLabels(i, target);
    case End => LabelsSingle(Label(i));
    case Div =>
      DefsNoLabels(DivBlock);
      RefsNoJumps(DivBlock);
    case _ => BlockLabels(op);
  }

  lemma FixedIfLabels(i: nat, target: nat)
    ensures Defs(FixedBlock(If, i, target)) == []
    ensures Refs(FixedBlock(If, i, target)) == {target}
  {
    assert FixedBlock(If, i, target) == [Pop(Rax), Test(Rax)] + [Jz(target)];
    DefsNoLabels(FixedBlock(If, i, target));
    RefsNoJumps([Pop(Rax), Test(Rax)]);
    RefsAppend([Pop(Rax), Test(Rax)], [Jz(target)]);
    LabelsSingle(Jz(target));
  }

  lemma FixedElseLabels(i: nat, target: nat)
    ensures Defs(FixedBlock(Else, i, target)) == [i]
    ensures Refs(FixedBlock(Else, i, target)) == {target}
  {
    assert FixedBlock(Else, i, target) == [Jmp(target)] + [Label(i)];
    DefsAppend([Jmp(target)], [Label(i)]);
    RefsAppend([Jmp(target)], [Label(i)]);
    LabelsSingle(Jmp(target));
    LabelsSingle(Label(i));
  }

  lemma FixedBlockAt(ops: seq<Op>, m: map<nat, nat>, i: nat)
    requires Targets(ops, m) && i < |ops|
    ensures Defs(FixedBlocks(ops, m)[i]) == if ops[i].Else? || ops[i].End? then [i] else []
    ensures IsOpener(ops[i]) ==> Refs(FixedBlocks(ops, m)[i]) == {m[i]}
    ensures !IsOpener(ops[i]) ==> Refs(FixedBlocks(ops, m)[i]) == {}
  {
    FixedBlockLabels(ops[i], i, if IsOpener(ops[i]) then m[i] else i);
  }

  lemma FixedOwnIndex(ops: seq<Op>, m: map<nat, nat>)
    requires Targets(ops, m)
    ensures DefinesOwnIndex(FixedBlocks(ops, m), 0)
  {
    var bs := FixedBlocks(ops, m);
    forall j | 0 <= j < |bs|
      ensures Defs(bs[j]) == [] || Defs(bs[j]) == [0 + j]
    {
      FixedBlockAt(ops, m, j);
    }
  }

  /** Every opener jumps to the position of a closer. */
  predicate JumpsToClosers(ops: seq<Op>, m: map<nat, nat>) {
    forall i :: i in m ==> m[i] < |ops| && IsCloser(ops[m[i]])
  }

  /** The block of an opener jumps only to its closer, whose block
      defines that closer's label. */
  lemma FixedRefLands(ops: seq<Op>, m: map<nat, nat>, j: nat, l: nat)
    requires Targets(ops, m) && JumpsToClosers(ops, m)
    requires j < |ops| && l in Refs(FixedBlocks(ops, m)[j])
    ensures l < |ops| && Defs(FixedBlocks(ops, m)[l]) != []
  {
    FixedBlockAt(ops, m, j);
    assert l == m[j];
    FixedBlockAt(ops, m, l);
  }

  lemma FixedRefDefined(ops: seq<Op>, m: map<nat, nat>, l: nat)
    requires Targets(ops, m) && JumpsToClosers(ops, m)
    requires l in Refs(FixedProgram(ops, m))
    ensures l in Defs(FixedProgram(ops, m))
  {
    var bs := FixedBlocks(ops, m);
    FixedOwnIndex(ops, m);
    forall j | 0 <= j < |bs| && l in Refs(bs[j])
      ensures l < |bs| && Defs(bs[l]) != []
    {
      FixedRefLands(ops, m, j, l);
    }
    RefsDefinedBy(bs, l);
  }

  /** With a matching, every label of the corrected program is defined
      exactly once and every jump lands on a defined label: the assembler
      accepts every well-bracketed program. */
  lemma FixedAssembles(ops: seq<Op>, m: map<nat, nat>)
    requires Matching(ops, m)
    ensures Assembles(FixedProgram(ops, m))
  {
    assert Targets(ops, m) && JumpsToClosers(ops, m);
    var bs := FixedBlocks(ops, m);
    FixedOwnIndex(ops, m);
    forall l | l in Defs(Concat(bs))
      ensures multiset(Defs(Concat(bs)))[l] <= 1
    {
      IndexedDefsUnique(bs, 0, l);
    }
    forall l | l in Refs(Concat(bs))
      ensures l in Defs(Concat(bs))
    {
      FixedRefDefined(ops, m, l);
    }
  }

  /** The compiled text of a well-bracketed program comes from a program
      whose labels resolve. */
  lemma CompileAssembles(ops: seq<Op>)
    requires Structured(ops)
    ensures Resolve(ops).Success?
    ensures Compile(ops) == Success(Preamble + Text(FixedProgram(ops, Resolve(ops).value)) + Text(ExitSequence))
    ensures Assembles(FixedProgram(ops, Resolve(ops).value))
  {
    FixedAssembles(ops, Resolve(ops).value);
  }

  /** The corrected division block computes `a / b`, truncating toward
      zero, and fails on a zero divisor or fewer than two values. */
  lemma DivFixedImplements()
    ensures Implements(DivBlock, Div)
  {
    forall st: State
      ensures Agrees(ExecSeq(DivBlock, st), Denote(Div, View(st)))
    {
      DivFixedAt(st);
    }
  }

  /** `pop rbx; pop rax`: the top in rbx, the value below it in rax. */
  lemma PopDivisorFirst(st: State)
    ensures |st.stack| < 2 ==> ExecSeq([Pop(Rbx), Pop(Rax)], st) == Fault
    ensures |st.stack| >= 2 ==>
      var s := st.stack;
      ExecSeq([Pop(Rbx), Pop(Rax)], st)
        == Continue(st.(regs := st.regs[Rbx := s[|s| - 1]][Rax := s[|s| - 2]], stack := s[..|s| - 2]))
  {
    ExecCons(Pop(Rbx), [Pop(Rax)], st);
    if |st.stack| > 0 {
      var s1 := Step(Pop(Rbx), st).st;
      ExecSingle(Pop(Rax), s1);
      if |st.stack| >= 2 {
        assert s1.stack[..|s1.stack| - 1] == st.stack[..|st.stack| - 2];
      }
    }
  }

  lemma DivFixedAt(st: State)
    ensures Agrees(ExecSeq(DivBlock, st), Denote(Div, View(st)))
  {
    var tail := [Cqo, Idiv(Rbx), PushReg(Rax)];
    assert DivBlock == [Pop(Rbx), Pop(Rax)] + tail;
    ExecAppend([Pop(Rbx), Pop(Rax)], tail, st);
    PopDivisorFirst(st);
    if |st.stack| >= 2 {
      DivTail(ExecSeq([Pop(Rbx), Pop(Rax)], st).st);
    }
  }

  /** Every corrected straight-line block implements its operation. */
  lemma FixedBlockImplements(op: Op, i: nat, target: nat)
    requires !IsControl(op)
    ensures Implements(FixedBlock(op, i, target), op)
  {
    if op.Div? {
      DivFixedImplements();
    } else {
      BlockImplements(op);
    }
  }

  /** A program without control flow needs no pairing. */
  lemma NoControlTargets(ops: seq<Op>)
    requires forall i :: 0 <= i < |ops| ==> !IsControl(ops[i])
    ensures Targets(ops, map[])
  {
  }

  /** A corrected program without control flow, division included, runs
      on the machine exactly as the stack semantics says. */
  lemma FixedStraightLine(ops: seq<Op>, st: State)
    requires forall i :: 0 <= i < |ops| ==> !IsControl(ops[i])
    ensures Targets(ops, map[])
    ensures Agrees(ExecSeq(FixedProgram(ops, map[]), st), Interp(ops, View(st)))
  {
    forall i | 0 <= i < |ops|
      ensures Implements(FixedBlocks(ops, map[])[i], ops[i])
    {
      FixedBlockImplements(ops[i], i, i);
    }
    ConcatImplements(FixedBlocks(ops, map[]), ops, st);
  }

  /** Where the original generator was right the correction changes
      nothing: without control flow or division, the output is the same. */
  lemma CompileAgreesWithGenerate(ops: seq<Op>)
    requires forall i :: 0 <= i < |ops| ==> !IsControl(ops[i]) && !ops[i].Div?
    ensures Compile(ops) == Success(Generate(ops))
  {
    var m := Resolve(ops).value;
    assert FixedBlocks(ops, m) == Blocks(ops);
    BodyIsProgramText(ops);
  }

  /** A conditional without `else`, which the original leaves with an
      undefined label, is accepted and now assembles. */
  lemma IfWithoutElseAssembles()
    ensures Structured([Push("1"), If, Push("2"), Dump, End])
    ensures Assembles(FixedProgram([Push("1"), If, Push("2"), Dump, End], Resolve([Push("1"), If, Push("2"), Dump, End]).value))
  {
    var ops := [Push("1"), If, Push("2"), Dump, End];
    assert ops[4..][1..] == [];
    assert Accepts(ops[4..], [If]);
    assert ops[3..][1..] == ops[4..];
    assert ops[2..][1..] == ops[3..];
    assert Accepts(ops[2..], [If]);
    assert ops[1..][1..] == ops[2..];
    assert Accepts(ops, []);
    CompileAssembles(ops);
  }

  /** Running the pass over a segment `ops[j..k]` that closes exactly the
      blocks open on `stack` arrives at `k` with nothing open. */
  lemma {:induction false} PrefixRun(ops: seq<Op>, j: nat, k: nat, stack: seq<nat>, m: map<nat, nat>)
    returns (m': map<nat, nat>)
    requires j <= k <= |ops| && InRange(ops, stack)
    requires Accepts(ops[j..k], Kinds(ops, stack))
    ensures ResolveFrom(ops, j, stack, m) == ResolveFrom(ops, k, [], m')
    decreases k - j
  {
    if j == k {
      assert ops[j..k] == [];
      m' := m;
    } else {
      var n := |stack|;
      assert ops[j..k][0] == ops[j] && ops[j..k][1..] == ops[j + 1..k];
      match ops[j]
      case If =>
        KindsPush(ops, stack, j);
        m' := PrefixRun(ops, j + 1, k, stack + [j], m);
      case Else =>
        KindsPop(ops, stack);
        KindsPush(ops, stack[..n - 1], j);
        m' := PrefixRun(ops, j + 1, k, stack[..n - 1] + [j], m[stack[n - 1] := j]);
      case End =>
        KindsPop(ops, stack);
        m' := PrefixRun(ops, j + 1, k, stack[..n - 1], m[stack[n - 1] := j]);
      case _ =>
        m' := PrefixRun(ops, j + 1, k, stack, m);
    }
  }

  /** After a well-bracketed prefix nothing is open, so an `end` there is
      the first fault and is blamed. */
  lemma StrayEndBlamed(ops: seq<Op>, k: nat)
    requires k < |ops| && Structured(ops[..k]) && ops[k].End?
    ensures Compile(ops) == Failure(EndWithoutOpen(k))
  {
    assert ops[0..k] == ops[..k];
    assert Kinds(ops, []) == [];
    var m' := PrefixRun(ops, 0, k, [], map[]);
  }

  /** After a well-bracketed prefix no `if` is open, so an `else` there is
      the first fault and is blamed. */
  lemma StrayElseBlamed(ops: seq<Op>, k: nat)
    requires k < |ops| && Structured(ops[..k]) && ops[k].Else?
    ensures Compile(ops) == Failure(ElseWithoutIf(k))
  {
    assert ops[0..k] == ops[..k];
    assert Kinds(ops, []) == [];
    var m' := PrefixRun(ops, 0, k, [], map[]);
  }

  /** An `end` with nothing open is blamed. */
  lemma StrayEndRejected()
    ensures Compile([End]) == Failure(EndWithoutOpen(0))
  {
    assert ResolveFrom([End], 0, [], map[]) == Failure(EndWithoutOpen(0));
  }

  /** An `else` with no `if` open is blamed. */
  lemma StrayElseRejected()
    ensures Compile([Push("1"), Else, End]) == Failure(ElseWithoutIf(1))
  {
    var ops := [Push("1"), Else, End];
    assert ResolveFrom(ops, 1, [], map[]) == Failure(ElseWithoutIf(1));
  }

  /** An `if` left open is blamed, the innermost first. */
  lemma UnclosedRejected()
    ensures Compile([If, If, End]) == Failure(Unclosed(0))
  {
    var ops := [If, If, End];
    assert ResolveFrom(ops, 3, [0], map[1 := 2]) == Failure(Unclosed(0));
    assert ResolveFrom(ops, 2, [0, 1], map[]) == Failure(Unclosed(0));
  }
}
