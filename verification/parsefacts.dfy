/** What the parser computes, stated against the stream it consumes: the occurrence mask
    is exactly the set of letters read, every call either runs to the end of the stream or
    stops at the `)` that closes its group, and so a successful parse consumes the whole
    lexer output, which is then free of errors. */
module ParseFacts {
  import opened Results
  import opened Letters
  import opened Lexer
  import opened Truths
  import opened Stmts
  import opened Parser

  // ---------------------------------------------------------------------------
  // Letters read

  /** Item `q` is a letter with canonical index `i`. */
  predicate LetterAt(items: seq<LexerResult>, q: nat, i: Index)
    requires q < |items|
  {
    items[q].Lexed? && items[q].l.t == LTStatement && IsLetter(items[q].l.v) && AlphaToIdx(items[q].l.v) == i
  }

  /** Some item among `lo`..`hi`-1 is the letter with index `i`. */
  predicate Mentions(items: seq<LexerResult>, lo: nat, hi: nat, i: Index)
    requires hi <= |items|
  {
    exists q :: lo <= q < hi && LetterAt(items, q, i)
  }

  /** Mask `m` has exactly the bits of `base` and those of the letters among `lo`..`hi`-1. */
  predicate MaskCovers(m: Occurrences, base: Occurrences, items: seq<LexerResult>, lo: nat, hi: nat)
    requires hi <= |items|
  {
    forall i: Index :: Has(m, i) <==> Has(base, i) || Mentions(items, lo, hi, i)
  }

  lemma CoversEmpty(base: Occurrences, items: seq<LexerResult>, pos: nat)
    requires pos <= |items|
    ensures MaskCovers(base, base, items, pos, pos)
  {
  }

  /** A lexeme other than a letter adds no bit. */
  lemma CoversNonLetter(items: seq<LexerResult>, pos: nat, base: Occurrences)
    requires pos < |items| && items[pos].Lexed? && items[pos].l.t != LTStatement
    ensures MaskCovers(base, base, items, pos, pos + 1)
  {
  }

  /** A letter adds its own bit. */
  lemma CoversLetter(items: seq<LexerResult>, pos: nat, base: Occurrences)
    requires pos < |items| && items[pos].Lexed? && items[pos].l.t == LTStatement && IsLetter(items[pos].l.v)
    ensures MaskCovers(base + {AlphaToIdx(items[pos].l.v)}, base, items, pos, pos + 1)
  {
    forall i: Index
      ensures Has(base + {AlphaToIdx(items[pos].l.v)}, i) <==> Has(base, i) || Mentions(items, pos, pos + 1, i)
    {
      if Mentions(items, pos, pos + 1, i) {
        var q :| pos <= q < pos + 1 && LetterAt(items, q, i);
        assert q == pos;
      }
      if i == AlphaToIdx(items[pos].l.v) {
        assert LetterAt(items, pos, i);
      }
    }
  }

  lemma MentionsSplit(items: seq<LexerResult>, lo: nat, mid: nat, hi: nat, i: Index)
    requires lo <= mid <= hi <= |items|
    ensures Mentions(items, lo, hi, i) <==> Mentions(items, lo, mid, i) || Mentions(items, mid, hi, i)
  {
    if Mentions(items, lo, hi, i) {
      var q :| lo <= q < hi && LetterAt(items, q, i);
      if q < mid {
        assert Mentions(items, lo, mid, i);
      } else {
        assert Mentions(items, mid, hi, i);
      }
    }
  }

  /** Covering composes along the stream. */
  lemma CoversJoin(m: Occurrences, mid: Occurrences, base: Occurrences, items: seq<LexerResult>, lo: nat, k: nat, hi: nat)
    requires lo <= k <= hi <= |items|
    requires MaskCovers(mid, base, items, lo, k) && MaskCovers(m, mid, items, k, hi)
    ensures MaskCovers(m, base, items, lo, hi)
  {
    forall i: Index
      ensures Has(m, i) <==> Has(base, i) || Mentions(items, lo, hi, i)
    {
      MentionsSplit(items, lo, k, hi, i);
    }
  }

  // ---------------------------------------------------------------------------
  // What one call consumes

  /** Call result `s`, started at `pos` with mask `base`: its mask adds exactly the letters it
      read, and it either ran to the end of the stream or closed one group more than it
      opened. */
  predicate Consumed(items: seq<LexerResult>, pos: nat, base: Occurrences, s: Sub)
    requires pos <= s.next <= |items|
  {
    && MaskCovers(s.atomics, base, items, pos, s.next)
    && (s.next == |items| || NestDepth(items[pos..s.next]) == -1)
  }

  lemma NestDepthSplit(items: seq<LexerResult>, lo: nat, k: nat, hi: nat)
    requires lo <= k <= hi <= |items|
    ensures NestDepth(items[lo..hi]) == NestDepth(items[lo..k]) + NestDepth(items[k..hi])
  {
    assert items[lo..hi] == items[lo..k] + items[k..hi];
    NestDepthAppend(items[lo..k], items[k..hi]);
  }

  lemma NestDepthOne(items: seq<LexerResult>, pos: nat)
    requires pos < |items|
    ensures NestDepth(items[pos..pos + 1]) == ItemDelta(items[pos])
  {
    assert items[pos..pos + 1][1..] == [];
  }

  /** A `)` read where the end of a call may come. */
  lemma CloseConsumed(items: seq<LexerResult>, pos: nat, base: Occurrences, s: Sub)
    requires pos < |items| && items[pos].Lexed? && items[pos].l.t == LTCloseParen
    requires s.atomics == base && s.next == pos + 1
    ensures Consumed(items, pos, base, s)
  {
    CoversNonLetter(items, pos, base);
    NestDepthOne(items, pos);
  }

  /** A lexeme other than a parenthesis, then the rest of the call. */
  lemma StepConsumed(items: seq<LexerResult>, pos: nat, base: Occurrences, mid: Occurrences, s: Sub)
    requires pos < |items| && items[pos].Lexed?
    requires items[pos].l.t != LTOpenParen && items[pos].l.t != LTCloseParen
    requires pos + 1 <= s.next <= |items|
    requires MaskCovers(mid, base, items, pos, pos + 1)
    requires Consumed(items, pos + 1, mid, s)
    ensures Consumed(items, pos, base, s)
  {
    CoversJoin(s.atomics, mid, base, items, pos, pos + 1, s.next);
    NestDepthSplit(items, pos, pos + 1, s.next);
    NestDepthOne(items, pos);
  }

  /** A `(`, the nested call it starts, then the rest of this call. */
  lemma GroupConsumed(items: seq<LexerResult>, pos: nat, base: Occurrences, sub: Sub, s: Sub)
    requires pos < |items| && items[pos].Lexed? && items[pos].l.t == LTOpenParen
    requires pos + 1 <= sub.next <= s.next <= |items|
    requires Consumed(items, pos + 1, {}, sub)
    requires Consumed(items, sub.next, base + sub.atomics, s)
    ensures Consumed(items, pos, base, s)
  {
    forall i: Index
      ensures Has(base + sub.atomics, i) <==> Has(base, i) || Mentions(items, pos, sub.next, i)
    {
      MentionsSplit(items, pos, pos + 1, sub.next, i);
      CoversNonLetter(items, pos, base);
    }
    CoversJoin(s.atomics, base + sub.atomics, base, items, pos, sub.next, s.next);
    NestDepthSplit(items, pos, pos + 1, s.next);
    NestDepthSplit(items, pos + 1, sub.next, s.next);
    NestDepthOne(items, pos);
  }

  lemma {:induction false} LoopConsumed(items: seq<LexerResult>, pos: nat, f: Frame)
    requires Consumable(items, pos) && FrameOK(items, pos, f)
    decreases |items| - pos, 2
    ensures ParseLoop(items, pos, f).Success? ==> Consumed(items, pos, f.atomics, ParseLoop(items, pos, f).value)
  {
    if pos == |items| {
      CoversEmpty(f.atomics, items, pos);
    } else if items[pos].Lexed? {
      match f.state
      case ExpStmt => StmtConsumed(items, pos, f);
      case ExpOpOrClose => OpOrCloseConsumed(items, pos, f);
      case ExpClose =>
        if items[pos].l.t == LTCloseParen {
          CloseConsumed(items, pos, f.atomics, ParseLoop(items, pos, f).value);
        }
    }
  }

  lemma {:induction false} StmtConsumed(items: seq<LexerResult>, pos: nat, f: Frame)
    requires Consumable(items, pos) && FrameOK(items, pos, f)
    requires pos < |items| && items[pos].Lexed? && f.state == ExpStmt
    decreases |items| - pos, 1
    ensures ExpectStmt(items, pos, f).Success? ==> Consumed(items, pos, f.atomics, ExpectStmt(items, pos, f).value)
  {
    ItemAt(items, pos);
    var l := items[pos].l;
    var r := ExpectStmt(items, pos, f);
    if r.Success? {
      match l.t
      case LTFalse =>
        LoopConsumed(items, pos + 1, Fill(f, FalseStmt));
        CoversNonLetter(items, pos, f.atomics);
        StepConsumed(items, pos, f.atomics, f.atomics, r.value);
      case LTTrue =>
        LoopConsumed(items, pos + 1, Fill(f, TrueStmt));
        CoversNonLetter(items, pos, f.atomics);
        StepConsumed(items, pos, f.atomics, f.atomics, r.value);
      case LTNegate =>
        LoopConsumed(items, pos + 1, WithPick(f, Negate(Pick(f))));
        CoversNonLetter(items, pos, f.atomics);
        StepConsumed(items, pos, f.atomics, f.atomics, r.value);
      case LTStatement =>
        var f' := Fill(f.(atomics := f.atomics + {AlphaToIdx(l.v)}), AtomicStmt(l.v));
        LoopConsumed(items, pos + 1, f');
        CoversLetter(items, pos, f.atomics);
        StepConsumed(items, pos, f.atomics, f'.atomics, r.value);
      case LTOpenParen => OpenConsumed(items, pos, f);
    }
  }

  /** The `(` case of `StmtConsumed`: the nested call's letters and the rest of the loop's. */
  lemma {:induction false} OpenConsumed(items: seq<LexerResult>, pos: nat, f: Frame)
    requires Consumable(items, pos) && FrameOK(items, pos, f)
    requires pos < |items| && items[pos].Lexed? && items[pos].l.t == LTOpenParen && f.state == ExpStmt
    decreases |items| - pos, 0
    ensures ExpectStmt(items, pos, f).Success? ==> Consumed(items, pos, f.atomics, ExpectStmt(items, pos, f).value)
  {
    ItemAt(items, pos);
    var r := ExpectStmt(items, pos, f);
    if r.Success? {
      var sub := ParseRecursive(items, pos + 1).value;
      RecursiveConsumed(items, pos + 1);
      LoopConsumed(items, sub.next, Fill(f.(atomics := f.atomics + sub.atomics), sub.stmt));
      GroupConsumed(items, pos, f.atomics, sub, r.value);
    }
  }

  lemma {:induction false} OpOrCloseConsumed(items: seq<LexerResult>, pos: nat, f: Frame)
    requires Consumable(items, pos) && FrameOK(items, pos, f)
    requires pos < |items| && items[pos].Lexed? && f.state == ExpOpOrClose
    decreases |items| - pos, 1
    ensures ExpectOpOrClose(items, pos, f).Success? ==>
              Consumed(items, pos, f.atomics, ExpectOpOrClose(items, pos, f).value)
  {
    ItemAt(items, pos);
    var l := items[pos].l;
    var r := ExpectOpOrClose(items, pos, f);
    if r.Success? {
      if l.t == LTOperator {
        LoopConsumed(items, pos + 1, f.(op := Some(ByteToOp(l.v)), state := ExpStmt));
        CoversNonLetter(items, pos, f.atomics);
        StepConsumed(items, pos, f.atomics, f.atomics, r.value);
      } else {
        CloseConsumed(items, pos, f.atomics, r.value);
      }
    }
  }

  lemma {:induction false} RecursiveConsumed(items: seq<LexerResult>, pos: nat)
    requires Consumable(items, pos) && StateAt(LexStatement, items, pos) == LexStatement
    decreases |items| - pos, 3
    ensures ParseRecursive(items, pos).Success? ==> Consumed(items, pos, {}, ParseRecursive(items, pos).value)
  {
    LoopConsumed(items, pos, StartFrame);
  }

  // ---------------------------------------------------------------------------
  // Whole inputs

  /** On a stream none of whose prefixes closes more groups than it opens, a successful
      top-level call cannot stop at a `)`: it reads the whole stream, which is then free of
      errors. */
  lemma TopCallReachesEnd(items: seq<LexerResult>)
    requires Consumable(items, 0) && ParseRecursive(items, 0).Success?
    requires forall q :: 0 <= q <= |items| ==> 0 + NestDepth(items[..q]) >= 0
    ensures ParseRecursive(items, 0).value.next == |items| && NoError(items)
  {
    var sub := ParseRecursive(items, 0).value;
    RecursiveConsumed(items, 0);
    assert items[0..sub.next] == items[..sub.next];
    assert AllLexed(items, 0, |items|);
    forall x | x in items ensures x.Lexed? {
      var q :| 0 <= q < |items| && items[q] == x;
    }
  }

  /** A successful parse read the whole lexer output, which is then free of errors, and the
      input is well formed. */
  lemma ParseConsumesAll(input: string)
    requires Parse(input).Success?
    ensures ParseRecursive(Lex(input), 0).Success?
    ensures ParseRecursive(Lex(input), 0).value.next == |Lex(input)|
    ensures NoError(Lex(input)) && WellFormed(RemoveAllWS(input))
  {
    RunNesting(RemoveAllWS(input), LexStatement, LexerState(0, false));
    TopCallReachesEnd(Lex(input));
    LexAccepts(input);
  }

  /** Parsing succeeds only on well-formed input, and fails with the lexer's error only on
      input that is not: on well-formed input the only failure is a chained operator. */
  lemma ParseAgreesWithLexer(input: string)
    ensures Parse(input).Success? ==> WellFormed(RemoveAllWS(input))
    ensures Parse(input).Failure? && Parse(input).error.LexFailure? ==> !WellFormed(RemoveAllWS(input))
    ensures WellFormed(RemoveAllWS(input)) ==> Parse(input).Success? || Parse(input).error.ChainedOperator?
  {
    LexAccepts(input);
    if Parse(input).Success? {
      ParseConsumesAll(input);
    } else if Parse(input).error.LexFailure? {
      var items := Lex(input);
      assert items[|items| - 1] in items;
    }
  }

  /** A stream that is one lexeme per character of `w` reads a letter exactly when the
      letter occurs in `w`. */
  lemma LettersOfStream(items: seq<LexerResult>, w: string, c: Letter)
    requires |items| == |w|
    requires forall q :: 0 <= q < |items| ==> InAlphabet(w[q]) && items[q] == Lexed(Lexeme(KindOf(w[q]), w[q]))
    ensures Mentions(items, 0, |items|, AlphaToIdx(c)) <==> c in w
  {
    var i := AlphaToIdx(c);
    if Mentions(items, 0, |items|, i) {
      var q :| 0 <= q < |items| && LetterAt(items, q, i);
      LetterIndexBijection(c, items[q].l.v, i);
      assert w[q] == c;
    }
    if c in w {
      var q :| 0 <= q < |w| && w[q] == c;
      assert LetterAt(items, q, i);
    }
  }

  /** On an input the lexer accepts, a letter is read exactly when it occurs in the input. */
  lemma LexedLetters(input: string, c: Letter)
    requires NoError(Lex(input))
    ensures Mentions(Lex(input), 0, |Lex(input)|, AlphaToIdx(c)) <==> c in input
  {
    var items := Lex(input);
    var w := RemoveAllWS(input);
    forall q | 0 <= q < |items|
      ensures InAlphabet(w[q]) && items[q] == Lexed(Lexeme(KindOf(w[q]), w[q]))
    {
      assert items[q] in items;
    }
    LettersOfStream(items, w, c);
    RemoveAllWSKeeps(input, c);
  }

  /** The names of the truth set `Parse` returns are exactly the letters of the input. */
  lemma ParseNames(input: string)
    requires Parse(input).Success?
    ensures forall c: Letter :: c in Parse(input).value.truth.names <==> c in input
  {
    var items := Lex(input);
    ParseConsumesAll(input);
    var sub := ParseRecursive(items, 0).value;
    RecursiveConsumed(items, 0);
    MaskNames(input, sub.atomics);
    assert Parse(input).value.truth == NewTruth(sub.atomics);
  }

  /** The truth set built from a mask that records the letters of the whole stream names
      exactly the letters of the input. */
  lemma MaskNames(input: string, m: Occurrences)
    requires NoError(Lex(input)) && MaskCovers(m, {}, Lex(input), 0, |Lex(input)|)
    ensures forall c: Letter :: c in NewTruth(m).names <==> c in input
  {
    forall c: Letter
      ensures c in NewTruth(m).names <==> c in input
    {
      NewTruthNames(m, c);
      LexedLetters(input, c);
    }
  }

  // ---------------------------------------------------------------------------
  // Shape of the statements built

  /** Negations only flip the parity of the slot they precede: after a run of `n` `!`s the
      loop continues exactly as if the slot's parity had been flipped `n` times, so an even
      run leaves no trace and an odd run at most one negation node. */
  lemma {:induction false} NegationRun(items: seq<LexerResult>, pos: nat, n: nat, f: Frame)
    requires Consumable(items, pos) && FrameOK(items, pos, f) && f.state == ExpStmt
    requires pos + n <= |items|
    requires forall q :: pos <= q < pos + n ==> items[q].Lexed? && items[q].l.t == LTNegate
    decreases n
    ensures Consumable(items, pos + n)
    ensures FrameOK(items, pos + n, WithPick(f, Pick(f).(negated := Pick(f).negated != (n % 2 == 1))))
    ensures ParseLoop(items, pos, f)
            == ParseLoop(items, pos + n, WithPick(f, Pick(f).(negated := Pick(f).negated != (n % 2 == 1))))
  {
    if n == 0 {
      assert WithPick(f, Pick(f).(negated := Pick(f).negated)) == f;
    } else {
      ItemAt(items, pos);
      var f1 := WithPick(f, Negate(Pick(f)));
      assert ParseLoop(items, pos, f) == ParseLoop(items, pos + 1, f1);
      NegationRun(items, pos + 1, n - 1, f1);
      assert Pick(f1) == Negate(Pick(f));
      assert forall b :: WithPick(f1, b) == WithPick(f, b);
    }
  }

  /** Parentheses add no node: a call that opens with `(`, whose group parses to `s` and is
      followed by its `)` (or the end of the stream), returns `s` itself with the group's
      occurrence mask. */
  lemma GroupAddsNoNode(items: seq<LexerResult>, pos: nat)
    requires Consumable(items, pos) && StateAt(LexStatement, items, pos) == LexStatement
    requires pos < |items| && items[pos].Lexed? && items[pos].l.t == LTOpenParen
    requires ParseRecursive(items, pos + 1).Success?
    requires var next := ParseRecursive(items, pos + 1).value.next;
             next == |items| || (items[next].Lexed? && items[next].l.t == LTCloseParen)
    ensures ParseRecursive(items, pos).Success?
    ensures ParseRecursive(items, pos).value.stmt == ParseRecursive(items, pos + 1).value.stmt
    ensures ParseRecursive(items, pos).value.atomics == ParseRecursive(items, pos + 1).value.atomics
  {
    ItemAt(items, pos);
    var sub := ParseRecursive(items, pos + 1).value;
    var f2 := Fill(StartFrame.(atomics := StartFrame.atomics + sub.atomics), sub.stmt);
    assert ParseRecursive(items, pos) == ParseLoop(items, pos, StartFrame);
    assert ParseLoop(items, pos, StartFrame) == ExpectStmt(items, pos, StartFrame);
    assert ExpectStmt(items, pos, StartFrame) == ParseLoop(items, sub.next, f2);
    if sub.next < |items| {
      ItemAt(items, sub.next);
      assert ParseLoop(items, sub.next, f2) == ExpectOpOrClose(items, sub.next, f2);
    }
  }
}
