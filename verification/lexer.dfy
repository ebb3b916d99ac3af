/** Tokenising and lowering: the loop in `main` that splits the source text
    into lines, each line into whitespace-separated words, and maps every
    word to an operation with `parse_word_to_op`. */
module Lexer {
  import opened Ops

  /** The Unicode White_Space characters, which is what Rust's
      `char::is_whitespace` (and so `split_whitespace`) separates on. */
  predicate IsSpace(c: char) {
    || ('\t' <= c <= '\r')
    || c == ' '
    || c == '\U{85}'
    || c == '\U{A0}'
    || c == '\U{1680}'
    || ('\U{2000}' <= c <= '\U{200A}')
    || c == '\U{2028}'
    || c == '\U{2029}'
    || c == '\U{202F}'
    || c == '\U{205F}'
    || c == '\U{3000}'
  }

  predicate AllSpace(s: string) {
    forall i :: 0 <= i < |s| ==> IsSpace(s[i])
  }

  /** A word: a non-empty run of non-space characters. */
  predicate IsWord(w: string) {
    |w| > 0 && forall i :: 0 <= i < |w| ==> !IsSpace(w[i])
  }

  /** Length of the run of non-space characters that starts `s`. */
  function WordLength(s: string): (n: nat)
    ensures n <= |s|
    ensures forall i :: 0 <= i < n ==> !IsSpace(s[i])
    ensures n < |s| ==> IsSpace(s[n])
  {
    if s == [] || IsSpace(s[0]) then 0 else 1 + WordLength(s[1..])
  }

  /** The words of `s` in order, as `split_whitespace` yields them. */
  function Words(s: string): (ws: seq<string>)
    ensures forall i :: 0 <= i < |ws| ==> IsWord(ws[i])
    decreases |s|
  {
    if s == [] then []
    else if IsSpace(s[0]) then Words(s[1..])
    else
      var n := WordLength(s);
      [s[..n]] + Words(s[n..])
  }

  /** Joins words with single spaces: the canonical layout of a word list. */
  function Unwords(ws: seq<string>): string {
    if |ws| == 0 then ""
    else if |ws| == 1 then ws[0]
    else ws[0] + " " + Unwords(ws[1..])
  }

  /** Length of the first line of `s`, up to but excluding its `\n`. */
  function LineLength(s: string): (n: nat)
    ensures n <= |s|
    ensures forall i :: 0 <= i < n ==> s[i] != '\n'
    ensures n < |s| ==> s[n] == '\n'
  {
    if s == [] || s[0] == '\n' then 0 else 1 + LineLength(s[1..])
  }

  /** Drops the `\r` of a `\r\n` line ending. */
  function DropCr(line: string): string {
    if |line| > 0 && line[|line| - 1] == '\r' then line[..|line| - 1] else line
  }

  /** The lines of `s` as Rust's `str::lines` yields them: split after each
      `\n`, a `\r\n` ending loses its `\r`, the final line needs no ending
      and no empty line follows a final `\n`. */
  function Lines(s: string): seq<string>
    decreases |s|
  {
    if s == [] then []
    else
      var n := LineLength(s);
      if n == |s| then [s] else [DropCr(s[..n])] + Lines(s[n + 1..])
  }

  /** The keywords of the language; every other word is a literal. */
  const Keywords: set<string> := {"+", "-", ".", "=", "*", "/", "if", "else", "end", "nop"}

  /** The word an operation is written as: its keyword, or the literal of a
      push. */
  function Spell(op: Op): string {
    match op
    case Push(w) => w
    case Add => "+"
    case Sub => "-"
    case Dump => "."
    case Eq => "="
    case Mul => "*"
    case Div => "/"
    case If => "if"
    case Else => "else"
    case End => "end"
    case Nop => "nop"
  }

  /** `parse_word_to_op`: a keyword maps to its operation, anything else to
      a push that keeps the word verbatim. Lowering never fails and never
      loses the word. */
  function Lower(word: string): (op: Op)
    ensures Spell(op) == word
    ensures op.Push? <==> word !in Keywords
  {
    if word == "+" then Add
    else if word == "-" then Sub
    else if word == "." then Dump
    else if word == "=" then Eq
    else if word == "*" then Mul
    else if word == "/" then Div
    else if word == "if" then If
    else if word == "else" then Else
    else if word == "end" then End
    else if word == "nop" then Nop
    else Push(word)
  }

  function LowerAll(ws: seq<string>): seq<Op> {
    seq(|ws|, i requires 0 <= i < |ws| => Lower(ws[i]))
  }

  /** The loop over lines: a line without words is skipped, otherwise each
      of its words is lowered in order. */
  function LowerLines(lines: seq<string>): seq<Op> {
    if lines == [] then []
    else
      var ws := Words(lines[0]);
      (if |ws| == 0 then [] else LowerAll(ws)) + LowerLines(lines[1..])
  }

  /** The operation sequence built from a source text. */
  function Tokenize(source: string): seq<Op> {
    LowerLines(Lines(source))
  }

  /** Every keyword lowers to its own operation, and a push of a word that
      is not a keyword lowers back to itself: `Spell` and `Lower` are
      inverse. */
  lemma LowerSpell(op: Op)
    requires op.Push? ==> op.word !in Keywords
    ensures Lower(Spell(op)) == op
  {
  }

  lemma WordLengthOfWord(w: string)
    requires IsWord(w)
    ensures WordLength(w) == |w|
  {
  }

  lemma WordsOfWord(w: string)
    requires IsWord(w)
    ensures Words(w) == [w]
  {
    WordLengthOfWord(w);
    assert w[..|w|] == w;
    assert w[|w|..] == [];
  }

  /** Extending a string after the end of its first word does not change
      the length of that word. */
  lemma {:induction false} WordLengthPrefix(a: string, t: string)
    requires WordLength(a) < |a| || (|t| > 0 && IsSpace(t[0]))
    ensures WordLength(a + t) == WordLength(a)
    decreases |a|
  {
    if a == [] {
    } else if IsSpace(a[0]) {
    } else {
      assert (a + t)[1..] == a[1..] + t;
      WordLengthPrefix(a[1..], t);
    }
  }

  lemma WordsSkipSpace(s: string)
    requires s != [] && IsSpace(s[0])
    ensures Words(s) == Words(s[1..])
  {
  }

  lemma WordsTakeWord(s: string)
    requires s != [] && !IsSpace(s[0])
    ensures Words(s) == [s[..WordLength(s)]] + Words(s[WordLength(s)..])
  {
  }

  /** One whitespace character separates: the words of `a c b` are the
      words of `a` followed by those of `b`. */
  lemma {:induction false} WordsSplit(a: string, c: char, b: string)
    requires IsSpace(c)
    ensures Words(a + [c] + b) == Words(a) + Words(b)
    decreases |a|
  {
    var s := a + [c] + b;
    if a == [] {
      assert s == [c] + b;
      assert s[1..] == b;
      WordsSkipSpace(s);
    } else if IsSpace(a[0]) {
      assert s[1..] == a[1..] + [c] + b;
      WordsSkipSpace(s);
      WordsSkipSpace(a);
      WordsSplit(a[1..], c, b);
    } else {
      WordsSplitWord(a, c, b);
    }
  }

  lemma SplitInside(a: string, c: char, b: string, n: nat)
    requires n <= |a|
    ensures (a + [c] + b)[..n] == a[..n]
    ensures (a + [c] + b)[n..] == a[n..] + [c] + b
  {
  }

  lemma {:induction false} WordsSplitWord(a: string, c: char, b: string)
    requires IsSpace(c) && a != [] && !IsSpace(a[0])
    ensures Words(a + [c] + b) == Words(a) + Words(b)
    decreases |a|, 0
  {
    var s := a + [c] + b;
    var n := WordLength(a);
    assert s == a + ([c] + b);
    WordLengthPrefix(a, [c] + b);
    assert WordLength(s) == n;
    SplitInside(a, c, b, n);
    WordsTakeWord(s);
    assert Words(s) == [a[..n]] + Words(a[n..] + [c] + b);
    WordsTakeWord(a);
    WordsSplit(a[n..], c, b);
    assert Words(s) == [a[..n]] + (Words(a[n..]) + Words(b));
  }

  /** Any non-empty run of whitespace separates like a single space. */
  lemma {:induction false} WordsSeparated(a: string, sp: string, b: string)
    requires |sp| > 0 && AllSpace(sp)
    ensures Words(a + sp + b) == Words(a) + Words(b)
    decreases |sp|
  {
    assert a + sp + b == a + [sp[0]] + (sp[1..] + b);
    WordsSplit(a, sp[0], sp[1..] + b);
    if |sp| > 1 {
      WordsSeparated([], sp[1..], b);
      assert [] + sp[1..] + b == sp[1..] + b;
    } else {
      assert sp[1..] + b == b;
    }
  }

  /** Whitespace alone holds no words. */
  lemma {:induction false} WordsOfSpace(sp: string)
    requires AllSpace(sp)
    ensures Words(sp) == []
    decreases |sp|
  {
    if sp != [] {
      WordsOfSpace(sp[1..]);
    }
  }

  /** Round trip: laying words out with single spaces and splitting again
      gives the same words back. */
  lemma {:induction false} WordsUnwords(ws: seq<string>)
    requires forall i :: 0 <= i < |ws| ==> IsWord(ws[i])
    ensures Words(Unwords(ws)) == ws
    decreases |ws|
  {
    if |ws| == 0 {
    } else if |ws| == 1 {
      WordsOfWord(ws[0]);
    } else {
      WordsSplit(ws[0], ' ', Unwords(ws[1..]));
      assert ws[0] + " " + Unwords(ws[1..]) == ws[0] + [' '] + Unwords(ws[1..]);
      WordsOfWord(ws[0]);
      WordsUnwords(ws[1..]);
    }
  }

  lemma LowerAllAppend(a: seq<string>, b: seq<string>)
    ensures LowerAll(a + b) == LowerAll(a) + LowerAll(b)
  {
  }

  lemma WordsDropCr(line: string)
    ensures Words(DropCr(line)) == Words(line)
  {
    if |line| > 0 && line[|line| - 1] == '\r' {
      var l := line[..|line| - 1];
      assert line == l + ['\r'] + [];
      WordsSplit(l, '\r', []);
    }
  }

  /** The line-by-line loop lowers exactly the words of the whole text, in
      order: line breaks are whitespace like any other, and skipping empty
      lines drops nothing. */
  lemma {:induction false} TokenizeIsLowerWords(s: string)
    ensures Tokenize(s) == LowerAll(Words(s))
    decreases |s|
  {
    if s != [] {
      var n := LineLength(s);
      if n == |s| {
        assert Lines(s) == [s];
        assert LowerLines([s]) == (if |Words(s)| == 0 then [] else LowerAll(Words(s))) + LowerLines([]);
      } else {
        var line := s[..n];
        var rest := s[n + 1..];
        assert Lines(s) == [DropCr(line)] + Lines(rest);
        assert ([DropCr(line)] + Lines(rest))[1..] == Lines(rest);
        assert s == line + ['\n'] + rest;
        WordsSplit(line, '\n', rest);
        WordsDropCr(line);
        TokenizeIsLowerWords(rest);
        LowerAllAppend(Words(line), Words(rest));
      }
    }
  }

  /** Whitespace-insensitivity: any non-empty run of whitespace between two
      pieces of source text (spaces, tabs, line breaks) separates them in
      the same way. */
  lemma TokenizeSeparated(a: string, sp: string, b: string)
    requires |sp| > 0 && AllSpace(sp)
    ensures Tokenize(a + sp + b) == Tokenize(a) + Tokenize(b)
  {
    TokenizeIsLowerWords(a + sp + b);
    TokenizeIsLowerWords(a);
    TokenizeIsLowerWords(b);
    WordsSeparated(a, sp, b);
    LowerAllAppend(Words(a), Words(b));
  }

  /** Blank source text, including the empty text, holds no operations. */
  lemma TokenizeBlank(s: string)
    requires AllSpace(s)
    ensures Tokenize(s) == []
  {
    TokenizeIsLowerWords(s);
    WordsOfSpace(s);
  }

  /** A push literal that can be written back as source: a word that is not
      a keyword. */
  predicate Writable(op: Op) {
    op.Push? ==> IsWord(op.word) && op.word !in Keywords
  }

  /** The canonical source text of an operation sequence. */
  function Untokenize(ops: seq<Op>): string {
    Unwords(seq(|ops|, i requires 0 <= i < |ops| => Spell(ops[i])))
  }

  /** Round trip: tokenising the canonical text of any sequence of writable
      operations gives the sequence back. */
  lemma TokenizeUntokenize(ops: seq<Op>)
    requires forall i :: 0 <= i < |ops| ==> Writable(ops[i])
    ensures Tokenize(Untokenize(ops)) == ops
  {
    var ws := seq(|ops|, i requires 0 <= i < |ops| => Spell(ops[i]));
    forall i | 0 <= i < |ws|
      ensures IsWord(ws[i])
    {
      assert IsWord(Spell(ops[i]));
    }
    WordsUnwords(ws);
    TokenizeIsLowerWords(Untokenize(ops));
    forall i | 0 <= i < |ops|
      ensures LowerAll(ws)[i] == ops[i]
    {
      LowerSpell(ops[i]);
    }
  }

  /** A single writable word lowers to its one operation. */
  lemma TokenizeWord(op: Op)
    requires Writable(op)
    ensures Tokenize(Spell(op)) == [op]
  {
    assert Untokenize([op]) == Spell(op);
    TokenizeUntokenize([op]);
  }

  /** `1 2 +` laid out with the separators `sp1` and `sp2`. */
  lemma OneTwoPlus(sp1: string, sp2: string)
    requires |sp1| > 0 && AllSpace(sp1) && |sp2| > 0 && AllSpace(sp2)
    ensures Tokenize("1" + sp1 + ("2" + sp2 + "+")) == [Push("1"), Push("2"), Add]
  {
    TokenizeWord(Push("1"));
    TokenizeWord(Push("2"));
    TokenizeWord(Add);
    TokenizeSeparated("2", sp2, "+");
    TokenizeSeparated("1", sp1, "2" + sp2 + "+");
  }

  /** The three layouts of `1 2 +` all lower to the same three operations. */
  lemma SameProgramAnyLayout()
    ensures Tokenize("1 2 +") == [Push("1"), Push("2"), Add]
    ensures Tokenize("1\n2\n+") == [Push("1"), Push("2"), Add]
    ensures Tokenize("1  2   +") == [Push("1"), Push("2"), Add]
  {
    SpacedLayout();
    LineLayout();
    WideLayout();
  }

  lemma SpacedLayout()
    ensures Tokenize("1 2 +") == [Push("1"), Push("2"), Add]
  {
    OneTwoPlus(" ", " ");
    assert "1 2 +" == "1" + " " + ("2" + " " + "+");
  }

  lemma LineLayout()
    ensures Tokenize("1\n2\n+") == [Push("1"), Push("2"), Add]
  {
    OneTwoPlus("\n", "\n");
    assert "1\n2\n+" == "1" + "\n" + ("2" + "\n" + "+");
  }

  lemma WideLayout()
    ensures Tokenize("1  2   +") == [Push("1"), Push("2"), Add]
  {
    OneTwoPlus("  ", "   ");
    assert "1  2   +" == "1" + "  " + ("2" + "   " + "+");
  }
}
