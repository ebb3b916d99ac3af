/** The meaning of the source language as a stack machine over unbounded
    integers, independent of any instruction set: what each straight-line
    operation does to the operand stack and to the printed output. */
module StackSemantics {
  import opened Results
  import opened Numerals
  import opened Ops

  /** The operand stack (top last) and everything printed so far. */
  datatype Config = Config(stack: seq<int>, out: string)

  /** Pops the top `b` and the value `a` below it and pushes `f(a, b)`: the
      first-pushed operand is the left one. Fails on fewer than two values. */
  function Binary(c: Config, f: (int, int) -> int): Option<Config> {
    var s := c.stack;
    if |s| < 2 then None
    else Some(Config(s[..|s| - 2] + [f(s[|s| - 2], s[|s| - 1])], c.out))
  }

  /** What one operation means. Control-flow markers have no straight-line
      meaning and give `None`, as do stack underflow, division by zero and
      a push of a word that is not a decimal literal. */
  function Denote(op: Op, c: Config): Option<Config> {
    var s := c.stack;
    match op
    case Push(w) =>
      (match ParseInt(w)
       case Some(n) => Some(Config(s + [n], c.out))
       case None => None)
    case Add => Binary(c, (a, b) => a + b)
    case Sub => Binary(c, (a, b) => a - b)
    case Mul => Binary(c, (a, b) => a * b)
    case Div =>
      if |s| < 2 || s[|s| - 1] == 0 then None
      else Some(Config(s[..|s| - 2] + [TruncDiv(s[|s| - 2], s[|s| - 1])], c.out))
    case Eq => Binary(c, (a, b) => if a == b then 1 else 0)
    case Dump =>
      if |s| < 1 then None
      else Some(Config(s[..|s| - 1], c.out + DumpText(s[|s| - 1])))
    case Nop => Some(c)
    case If => None
    case Else => None
    case End => None
  }

  /** Runs a sequence of operations from `c`. */
  function Interp(ops: seq<Op>, c: Config): Option<Config> {
    if ops == [] then Some(c)
    else
      match Denote(ops[0], c)
      case None => None
      case Some(c') => Interp(ops[1..], c')
  }
}
