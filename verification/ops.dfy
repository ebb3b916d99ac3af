/** The instruction set of the source language: `enum Operation` together
    with the optional payload that `parse_word_to_op` pairs with it. */
module Ops {

  /** One operation. Only `Push` carries a payload: the source word, kept
      verbatim and handed to the assembler as an immediate operand. */
  datatype Op =
    | Push(word: string)
    | Add
    | Sub
    | Mul
    | Div
    | Eq
    | Dump
    | If
    | Else
    | End
    | Nop

  /** The three control-flow markers, whose emitted code refers to labels. */
  predicate IsControl(op: Op) {
    op.If? || op.Else? || op.End?
  }

  /** Operations that open a block another operation must close. */
  predicate IsOpener(op: Op) {
    op.If? || op.Else?
  }

  /** Operations that close the innermost open block. */
  predicate IsCloser(op: Op) {
    op.Else? || op.End?
  }

  /** True iff `closer` may close a block opened by `opener`: an `If` is
      closed by `Else` or `End`, an `Else` only by `End`. */
  predicate Closes(opener: Op, closer: Op) {
    (opener.If? && IsCloser(closer)) || (opener.Else? && closer.End?)
  }
}
