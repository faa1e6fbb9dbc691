/** Concrete inputs: parsing is not a syntactic fixed point of rendering, and a second
    operator in one group is rejected. */
module ParseCases {
  import opened Results
  import opened Letters
  import opened Lexer
  import opened Truths
  import opened Stmts
  import opened Parser
  import opened RoundTrip
  import opened Chaining

  const N := Lexed(Lexeme(LTNegate, NegateSym))
  const A := Lexed(Lexeme(LTStatement, 'a'))

  const C := Lexed(Lexeme(LTCloseParen, ')'))

  lemma RunTail()
    ensures Run("a)", LexStatement, LexerState(1, false)) == [A, C]
  {
    assert Run("", LexOperator, LexerState(0, true)) == [];
    assert ")"[1..] == "";
    assert Run(")", LexOperator, LexerState(1, false)) == [C];
    assert "a)"[1..] == ")";
  }

  const O := Lexed(Lexeme(LTOpenParen, '('))

  lemma RunDoubleNegation()
    ensures Run("!(!a)", LexStatement, LexerState(0, false)) == [N, O, N, A, C]
  {
    RunTail();
    assert "!a)"[1..] == "a)";
    assert Run("!a)", LexStatement, LexerState(1, false)) == [N, A, C];
    assert "(!a)"[1..] == "!a)";
    assert Run("(!a)", LexStatement, LexerState(0, false)) == [O, N, A, C];
    assert "!(!a)"[1..] == "(!a)";
  }

  lemma LexDoubleNegation()
    ensures Lex("!(!a)") == [N, O, N, A, C]
  {
    RemoveAllWSNone("!(!a)");
    RunDoubleNegation();
  }

  /** The lexemes of `!(!a)`. */
  const Stream := [N, O, N, A, C]

  /** The lexer's output for `!(!a)` is a well-formed stream. */
  lemma StreamWellFormed()
    ensures WellFormedStream(Stream)
  {
    LexDoubleNegation();
  }

  /** Inside the group: `!a` then its `)`. */
  lemma InnerGroup()
    ensures WellFormedStream(Stream)
    ensures ParseRecursive(Stream, 2) == Success(Sub(NegatedStmt(AtomicStmt('a')), {AlphaToIdx('a')}, 5))
  {
    StreamWellFormed();
    var f1 := StartFrame.(left := Builder(None, true));
    var f2 := Fill(f1.(atomics := {AlphaToIdx('a')}), AtomicStmt('a'));
    assert ParseLoop(Stream, 4, f2) == Success(Sub(NegatedStmt(AtomicStmt('a')), {AlphaToIdx('a')}, 5));
    assert ParseLoop(Stream, 3, f1) == ExpectStmt(Stream, 3, f1);
    assert {} + {AlphaToIdx('a')} == {AlphaToIdx('a')};
    assert ParseLoop(Stream, 3, f1) == ParseLoop(Stream, 4, f2);
    assert ParseLoop(Stream, 2, StartFrame) == ParseLoop(Stream, 3, f1);
  }

  /** The whole stream: `!`, then the group in the negated slot. */
  lemma OuterGroup()
    ensures WellFormedStream(Stream)
    ensures ParseRecursive(Stream, 0) == Success(Sub(NegatedStmt(NegatedStmt(AtomicStmt('a'))), {AlphaToIdx('a')}, 5))
  {
    InnerGroup();
    var f1 := StartFrame.(left := Builder(None, true));
    var f2 := Fill(f1.(atomics := {AlphaToIdx('a')}), NegatedStmt(AtomicStmt('a')));
    assert ParseLoop(Stream, 5, f2) == Success(Sub(NegatedStmt(NegatedStmt(AtomicStmt('a'))), {AlphaToIdx('a')}, 5));
    assert ParseLoop(Stream, 1, f1) == ExpectStmt(Stream, 1, f1);
    assert {} + {AlphaToIdx('a')} == {AlphaToIdx('a')};
    assert ParseLoop(Stream, 1, f1) == ParseLoop(Stream, 5, f2);
    assert ParseLoop(Stream, 0, StartFrame) == ParseLoop(Stream, 1, f1);
  }

  /** `!(!a)` parses to a double negation: the group becomes the statement of the negated
      slot, and the parser does not merge negations across a group. */
  lemma ParseDoubleNegation()
    ensures Parse("!(!a)") == Success(Parsed(NegatedStmt(NegatedStmt(AtomicStmt('a'))), NewTruth({AlphaToIdx('a')})))
  {
    LexDoubleNegation();
    OuterGroup();
  }

  /** The text of that double negation is `!!a`, which parses to `a`: parsing and rendering
      do not reach a fixed point after one round. */
  lemma RenderDoubleNegation()
    ensures Render(NegatedStmt(NegatedStmt(AtomicStmt('a')))) == "!!a"
    ensures Parse("!!a").Success? && Parse("!!a").value.stmt == AtomicStmt('a')
  {
    var s := NegatedStmt(NegatedStmt(AtomicStmt('a')));
    assert Render(s) == "!!a";
    ParseRender(s);
    assert Canon(s) == AtomicStmt('a');
  }

  // ---------------------------------------------------------------------------
  // A chained operator

  const B := Lexed(Lexeme(LTStatement, 'b'))
  const Ampersand := Lexed(Lexeme(LTOperator, AndSym))
  const Bar := Lexed(Lexeme(LTOperator, OrSym))

  lemma RunChainedTail()
    ensures Run("b|c", LexStatement, LexerState(0, false)) == [B, Bar, Lexed(Lexeme(LTStatement, 'c'))]
  {
    assert Run("", LexOperator, LexerState(0, true)) == [];
    assert "c"[1..] == "";
    assert Run("c", LexStatement, LexerState(0, false)) == [Lexed(Lexeme(LTStatement, 'c'))];
    assert "|c"[1..] == "c";
    assert Run("|c", LexOperator, LexerState(0, true)) == [Bar, Lexed(Lexeme(LTStatement, 'c'))];
    assert "b|c"[1..] == "|c";
  }

  lemma RunChained()
    ensures Run("a&b|c", LexStatement, LexerState(0, false)) == [A, Ampersand, B, Bar, Lexed(Lexeme(LTStatement, 'c'))]
  {
    RunChainedTail();
    assert "&b|c"[1..] == "b|c";
    assert Run("&b|c", LexOperator, LexerState(0, true)) == [Ampersand, B, Bar, Lexed(Lexeme(LTStatement, 'c'))];
    assert "a&b|c"[1..] == "&b|c";
  }

  lemma LexChained()
    ensures Lex("a&b|c") == ChainedItems
  {
    RemoveAllWSNone("a&b|c");
    RunChained();
  }

  /** The lexemes of `a&b|c`. */
  const ChainedItems := [A, Ampersand, B, Bar, Lexed(Lexeme(LTStatement, 'c'))]

  /** The lexer's output for `a&b|c` is a well-formed stream. */
  lemma ChainedWellFormed()
    ensures WellFormedStream(ChainedItems)
  {
    LexChained();
  }

  lemma ChainedStream()
    ensures WellFormedStream(ChainedItems)
    ensures ParseRecursive(ChainedItems, 0) == Failure(ChainedOperator(Lexeme(LTOperator, OrSym)))
  {
    ChainedWellFormed();
    var f1 := Fill(StartFrame.(atomics := {AlphaToIdx('a')}), AtomicStmt('a'));
    var f2 := f1.(op := Some(And), state := ExpStmt);
    var f3 := Fill(f2.(atomics := {AlphaToIdx('a'), AlphaToIdx('b')}), AtomicStmt('b'));
    assert ParseLoop(ChainedItems, 3, f3) == Failure(ChainedOperator(Lexeme(LTOperator, OrSym)));
    assert ParseLoop(ChainedItems, 2, f2) == ExpectStmt(ChainedItems, 2, f2);
    assert f2.atomics + {AlphaToIdx('b')} == {AlphaToIdx('a'), AlphaToIdx('b')};
    assert ParseLoop(ChainedItems, 2, f2) == ParseLoop(ChainedItems, 3, f3);
    assert ParseLoop(ChainedItems, 1, f1) == ExpectOpOrClose(ChainedItems, 1, f1);
    assert ParseLoop(ChainedItems, 1, f1) == ParseLoop(ChainedItems, 2, f2);
    assert ParseLoop(ChainedItems, 0, StartFrame) == ExpectStmt(ChainedItems, 0, StartFrame);
    assert {} + {AlphaToIdx('a')} == {AlphaToIdx('a')};
    assert ParseLoop(ChainedItems, 0, StartFrame) == ParseLoop(ChainedItems, 1, f1);
  }

  /** `a&b|c` is rejected at its second operator: one group holds one binary operator, and
      a further one needs parentheses. */
  lemma ParseChained()
    ensures Parse("a&b|c") == Failure(ChainedOperator(Lexeme(LTOperator, OrSym)))
  {
    LexChained();
    ChainedStream();
  }

  /** The scan flags the second operator of `a&b|c`, but not operators in different groups,
      nor a chain that parentheses break. */
  lemma ChainedExamples()
    ensures Chained("a&b|c")
    ensures !Chained("(a&b)|c")
    ensures !Chained("a&(b|c)")
  {
    assert ChainFrom("a&b|c", 3, [true]);
    assert !ChainFrom("(a&b)|c", 5, [false]);
    assert !ChainFrom("(a&b)|c", 2, [false, false]);
    assert !ChainFrom("a&(b|c)", 3, [false, true]);
    assert !ChainFrom("a&(b|c)", 1, [false]);
  }
}
