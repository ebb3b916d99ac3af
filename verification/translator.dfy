/** The translator end to end, as `main` composes it: source text is
    tokenised and lowered, and the operations are written out as assembly. */
module Translator {
  import opened Results
  import opened Numerals
  import opened Ops
  import opened Lexer
  import opened CodeGen
  import opened StackSemantics
  import opened Machine
  import opened Correctness

  /** The assembly text written for a source text. */
  function Translate(source: string): string {
    Generate(Tokenize(source))
  }

  /** Whitespace-insensitivity of the whole translator: a run of whitespace
      between two pieces of source contributes nothing to the output, which
      is the text of the first piece's operations followed by the second's. */
  lemma TranslateSeparated(a: string, sp: string, b: string)
    requires |sp| > 0 && AllSpace(sp)
    ensures Translate(a + sp + b) == Preamble + Body(Tokenize(a)) + Body(Tokenize(b)) + ExitLines
  {
    TokenizeSeparated(a, sp, b);
    BodyAppend(Tokenize(a), Tokenize(b));
    ExitText();
    Regroup(Preamble, Body(Tokenize(a)), Body(Tokenize(b)), ExitLines);
  }

  lemma Regroup(p: string, x: string, y: string, t: string)
    ensures p + (x + y) + t == p + x + y + t
  {
  }

  /** A blank source, the empty file included, still gives a complete
      program: the preamble followed directly by `exit(0)`. */
  lemma TranslateBlank(s: string)
    requires AllSpace(s)
    ensures Translate(s) == Preamble + ExitLines
  {
    TokenizeBlank(s);
    GenerateLayout([]);
  }

  /** Writing operations out with single spaces and translating that text
      gives exactly the code for those operations. */
  lemma TranslateUntokenize(ops: seq<Op>)
    requires forall i :: 0 <= i < |ops| ==> Writable(ops[i])
    ensures Translate(Untokenize(ops)) == Generate(ops)
  {
    TokenizeUntokenize(ops);
  }

  /** The three layouts of `1 2 +` give the same assembly. */
  lemma TranslateLayouts()
    ensures Translate("1 2 +") == Translate("1\n2\n+") == Translate("1  2   +")
    ensures Translate("1 2 +") == Generate([Push("1"), Push("2"), Add])
  {
    SameProgramAnyLayout();
  }

  /** `34 35 + .` lowers to two pushes, an addition and a print. */
  lemma SumTokens()
    ensures Tokenize("34 35 + .") == [Push("34"), Push("35"), Add, Dump]
  {
    var ops := [Push("34"), Push("35"), Add, Dump];
    var ws := ["34", "35", "+", "."];
    assert seq(|ops|, i requires 0 <= i < |ops| => Spell(ops[i])) == ws;
    assert Unwords(ws[2..]) == "+ .";
    assert Unwords(ws) == "34 35 + .";
    TokenizeUntokenize(ops);
  }

  /** The executable built from `34 35 + .` prints `69` and exits with
      status 0. */
  lemma SumScenario()
    ensures Run(Tokenize("34 35 + .")) == Exited(0, "69\n")
  {
    SumTokens();
    SumRun();
  }

  lemma SumRun()
    ensures Run([Push("34"), Push("35"), Add, Dump]) == Exited(0, "69\n")
  {
    var ops := [Push("34"), Push("35"), Add, Dump];
    assert forall i :: 0 <= i < |ops| ==> !IsControl(ops[i]) && !ops[i].Div?;
    RunStraightLine(ops);
    SumSemantics();
  }

  lemma SumLiterals()
    ensures ParseInt("34") == Some(34) && ParseInt("35") == Some(35)
    ensures DumpText(69) == "69\n"
  {
    ParseIntRoundTrip(34);
    ParseIntRoundTrip(35);
    assert NatToString(3) == "3";
    assert NatToString(34) == "34";
    assert NatToString(35) == "35";
    assert NatToString(6) == "6";
    assert NatToString(69) == "69";
  }

  /** The stack semantics of `34 35 + .`: the sum is printed and the stack
      ends empty. */
  lemma SumSemantics()
    ensures Interp([Push("34"), Push("35"), Add, Dump], Config([], "")) == Some(Config([], "69\n"))
  {
    SumLiterals();
    var c1 := Config([34], "");
    var c2 := Config([34, 35], "");
    var c3 := Config([69], "");
    var c4 := Config([], "69\n");
    assert Denote(Push("34"), Config([], "")) == Some(c1) by {
      assert [] + [34] == [34];
    }
    assert Denote(Push("35"), c1) == Some(c2) by {
      assert [34] + [35] == [34, 35];
    }
    assert Denote(Add, c2) == Some(c3) by {
      assert [34, 35][..0] + [34 + 35] == [69];
    }
    assert Denote(Dump, c3) == Some(c4) by {
      assert [69][..0] == [];
      assert "" + DumpText(69) == "69\n";
    }
    InterpStep(Push("34"), [Push("35"), Add, Dump], Config([], ""));
    InterpStep(Push("35"), [Add, Dump], c1);
    InterpStep(Add, [Dump], c2);
    InterpStep(Dump, [], c3);
  }

  lemma InterpStep(op: Op, rest: seq<Op>, c: Config)
    ensures Interp([op] + rest, c) == match Denote(op, c)
      case None => None
      case Some(c') => Interp(rest, c')
  {
    assert ([op] + rest)[1..] == rest;
  }
}
