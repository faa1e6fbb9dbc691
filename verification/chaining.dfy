/** Which inputs parse, and with which error the others fail. A grouping level holds one
    operand or two operands joined by one operator: once a level has read its operator,
    only its `)` or the end of the stream may follow its right operand, and another
    operator is an error (parse.go:306-311). So parsing fails on a well-formed input
    exactly when some group, or the whole text, holds two operators at its own level, and
    `ChainFrom` decides that without parsing: it scans the text once, keeping for each open
    group whether it has read an operator. On an input the lexer rejects, the parser reads
    the lexemes before the lexer's error the same way, and passes that error on if it gets
    that far (parse.go:258-261). */
module Chaining {
  import opened Results
  import opened Letters
  import opened Lexer
  import opened Stmts
  import opened Parser
  import opened Rendering
  import opened ParseFacts

  /** Whether the innermost open group has read an operator. */
  function Top(open: seq<bool>): bool {
    |open| > 0 && open[0]
  }

  /** The open groups once the innermost is closed. */
  function Outer(open: seq<bool>): seq<bool> {
    if |open| == 0 then [] else open[1..]
  }

  /** The open groups after character `c`: `(` opens a group that has read no operator,
      `)` closes the innermost group, and an operator is read by the innermost group. */
  function Update(open: seq<bool>, c: char): seq<bool> {
    if c == '(' then [false] + open
    else if c == ')' then Outer(open)
    else if IsOpSym(c) then [true] + Outer(open)
    else open
  }

  /** Scanning `w` from position `k`, where `open` says for each open group, innermost first,
      whether it has read an operator at its own level: some operator of what follows is
      read by a group that has read one already. */
  predicate ChainFrom(w: string, k: nat, open: seq<bool>)
    decreases |w| - k
  {
    if k >= |w| then false
    else (IsOpSym(w[k]) && Top(open)) || ChainFrom(w, k + 1, Update(open, w[k]))
  }

  /** One step of the scan over `(`, `)`, an operator, or any other character. */
  lemma ChainOpen(w: string, k: nat, open: seq<bool>)
    requires k < |w| && w[k] == '('
    ensures ChainFrom(w, k, open) == ChainFrom(w, k + 1, [false] + open)
  {
  }

  lemma ChainClose(w: string, k: nat, open: seq<bool>)
    requires k < |w| && w[k] == ')'
    ensures ChainFrom(w, k, open) == ChainFrom(w, k + 1, Outer(open))
  {
  }

  lemma ChainOp(w: string, k: nat, open: seq<bool>)
    requires k < |w| && IsOpSym(w[k])
    ensures ChainFrom(w, k, open) == (Top(open) || ChainFrom(w, k + 1, [true] + Outer(open)))
  {
  }

  lemma ChainPass(w: string, k: nat, open: seq<bool>)
    requires k < |w| && w[k] != '(' && w[k] != ')' && !IsOpSym(w[k])
    ensures ChainFrom(w, k, open) == ChainFrom(w, k + 1, open)
  {
  }

  /** Some group of `w`, or `w` itself, holds two operators at its own level. */
  predicate Chained(w: string) {
    ChainFrom(w, 0, [false])
  }

  /** The character under the parser at `pos`, when the item there is a lexeme. */
  lemma CharAt(items: seq<LexerResult>, w: string, pos: nat)
    requires Transcript(items, w) && pos < |items| && items[pos].Lexed?
    ensures pos < |w| && InAlphabet(w[pos]) && items[pos] == TokenOf(w[pos])
  {
    SpellsAt(items, 0, w, pos);
  }

  // ---------------------------------------------------------------------------
  // The scan against a description without a stack: two operators are at the same level
  // of the same group exactly when the text between them is balanced.

  /** Two operators of `w` with balanced text between them. */
  predicate TwoOperators(w: string) {
    exists i, j :: 0 <= i < j < |w| && IsOpSym(w[i]) && IsOpSym(w[j]) && Balanced(w[i + 1..j])
  }

  /** No prefix of `u` closes more groups than it opens. */
  predicate NeverBelow(u: string) {
    forall m :: 0 <= m <= |u| ==> Depth(u[..m]) >= 0
  }

  /** The open groups after the first `k` characters of `w`. */
  function OpenAfter(w: string, k: nat): seq<bool>
    requires k <= |w|
  {
    if k == 0 then [false] else Update(OpenAfter(w, k - 1), w[k - 1])
  }

  /** `open` records the operators of `w` before position `k` whose group is still open:
      the operator at `i` is in the group `Depth(w[i + 1..k])` levels outside the innermost,
      and every group that has read an operator has such a witness. */
  predicate Records(w: string, k: nat, open: seq<bool>)
    requires k <= |w|
  {
    && (forall i :: 0 <= i < k && IsOpSym(w[i]) && NeverBelow(w[i + 1..k]) ==>
          0 <= Depth(w[i + 1..k]) < |open| && open[Depth(w[i + 1..k])])
    && (forall d :: 0 <= d < |open| && open[d] ==>
          exists i :: 0 <= i < k && IsOpSym(w[i]) && NeverBelow(w[i + 1..k]) && Depth(w[i + 1..k]) == d)
  }

  /** Extending the text after an operator by the character at `k - 1`. */
  lemma Extend(w: string, i: nat, k: nat)
    requires i < k - 1 && k <= |w|
    ensures w[i + 1..k] == w[i + 1..k - 1] + [w[k - 1]]
    ensures Depth(w[i + 1..k]) == Depth(w[i + 1..k - 1]) + Delta(w[k - 1])
    ensures NeverBelow(w[i + 1..k]) <==> NeverBelow(w[i + 1..k - 1]) && Depth(w[i + 1..k]) >= 0
  {
    var u := w[i + 1..k - 1];
    var v := w[i + 1..k];
    assert v == u + [w[k - 1]];
    DepthAppend(u, [w[k - 1]]);
    DepthOne(w[k - 1]);
    assert v[..|v|] == v;
    forall m | 0 <= m <= |u|
      ensures v[..m] == u[..m]
    {
    }
  }

  /** A group that has read an operator keeps that mark, one level further out after a
      `(` and one level further in after a `)` that does not close it. */
  lemma UpdateKeeps(open: seq<bool>, c: char, d: nat)
    requires d < |open| && open[d] && d + Delta(c) >= 0
    ensures d + Delta(c) < |Update(open, c)| && Update(open, c)[d + Delta(c)]
  {
  }

  /** Every mark after a character other than an operator's own was there before it. */
  lemma UpdateFrom(open: seq<bool>, c: char, d: nat)
    requires d < |Update(open, c)| && Update(open, c)[d] && !(IsOpSym(c) && d == 0)
    ensures 0 <= d - Delta(c) < |open| && open[d - Delta(c)]
  {
  }

  /** An operator whose group is still open after the character at `k - 1`. */
  lemma RecordForward(w: string, k: nat, open: seq<bool>, i: nat)
    requires 0 < k <= |w| && Records(w, k - 1, open)
    requires i < k && IsOpSym(w[i]) && NeverBelow(w[i + 1..k])
    ensures var open' := Update(open, w[k - 1]);
            0 <= Depth(w[i + 1..k]) < |open'| && open'[Depth(w[i + 1..k])]
  {
    if i == k - 1 {
      assert w[k..k] == [];
    } else {
      Extend(w, i, k);
      var d := Depth(w[i + 1..k - 1]);
      assert 0 <= d < |open| && open[d];
      UpdateKeeps(open, w[k - 1], d);
    }
  }

  /** A group that has read an operator after the character at `k - 1` has a witness. */
  lemma RecordBackward(w: string, k: nat, open: seq<bool>, d: nat)
    requires 0 < k <= |w| && Records(w, k - 1, open)
    requires d < |Update(open, w[k - 1])| && Update(open, w[k - 1])[d]
    ensures exists i :: 0 <= i < k && IsOpSym(w[i]) && NeverBelow(w[i + 1..k]) && Depth(w[i + 1..k]) == d
  {
    var c := w[k - 1];
    if IsOpSym(c) && d == 0 {
      assert w[k..k] == [];
      assert IsOpSym(w[k - 1]) && NeverBelow(w[k..k]) && Depth(w[k..k]) == 0;
    } else {
      UpdateFrom(open, c, d);
      var d0 := d - Delta(c);
      var i :| 0 <= i < k - 1 && IsOpSym(w[i]) && NeverBelow(w[i + 1..k - 1]) && Depth(w[i + 1..k - 1]) == d0;
      Extend(w, i, k);
      assert IsOpSym(w[i]) && NeverBelow(w[i + 1..k]) && Depth(w[i + 1..k]) == d;
    }
  }

  /** The character at `k - 1` keeps the record. */
  lemma UpdateRecords(w: string, k: nat, open: seq<bool>)
    requires 0 < k <= |w| && Records(w, k - 1, open)
    ensures Records(w, k, Update(open, w[k - 1]))
  {
    var open' := Update(open, w[k - 1]);
    forall i | 0 <= i < k && IsOpSym(w[i]) && NeverBelow(w[i + 1..k])
      ensures 0 <= Depth(w[i + 1..k]) < |open'| && open'[Depth(w[i + 1..k])]
    {
      RecordForward(w, k, open, i);
    }
    forall d | 0 <= d < |open'| && open'[d]
      ensures exists i :: 0 <= i < k && IsOpSym(w[i]) && NeverBelow(w[i + 1..k]) && Depth(w[i + 1..k]) == d
    {
      RecordBackward(w, k, open, d);
    }
  }

  lemma {:induction false} OpenAfterRecords(w: string, k: nat)
    requires k <= |w|
    ensures Records(w, k, OpenAfter(w, k))
  {
    if k > 0 {
      OpenAfterRecords(w, k - 1);
      UpdateRecords(w, k, OpenAfter(w, k - 1));
    }
  }

  /** Some operator at `j` >= `k` has an operator before it with balanced text between them. */
  predicate PairFrom(w: string, k: nat) {
    exists i, j :: 0 <= i < j < |w| && k <= j && IsOpSym(w[i]) && IsOpSym(w[j]) && Balanced(w[i + 1..j])
  }

  /** An operator the scan finds in a group that has read one ends a pair. */
  lemma PairEndingAtFound(w: string, k: nat, open: seq<bool>) returns (i: nat)
    requires k < |w| && Records(w, k, open) && IsOpSym(w[k]) && Top(open)
    ensures i < k && IsOpSym(w[i]) && Balanced(w[i + 1..k])
  {
    i :| 0 <= i < k && IsOpSym(w[i]) && NeverBelow(w[i + 1..k]) && Depth(w[i + 1..k]) == 0;
  }

  /** An operator that ends a pair is found by the scan. */
  lemma PairEndingAtScanned(w: string, k: nat, open: seq<bool>, i: nat)
    requires k < |w| && Records(w, k, open)
    requires i < k && IsOpSym(w[i]) && IsOpSym(w[k]) && Balanced(w[i + 1..k])
    ensures Top(open)
  {
    assert NeverBelow(w[i + 1..k]);
  }

  /** The operator at `k`, if any, ends a pair exactly when the scan finds its group has
      read an operator. */
  lemma PairEndingAt(w: string, k: nat, open: seq<bool>)
    requires k < |w| && Records(w, k, open)
    ensures (IsOpSym(w[k]) && Top(open)) <==>
            exists i :: 0 <= i < k && IsOpSym(w[i]) && IsOpSym(w[k]) && Balanced(w[i + 1..k])
  {
    if IsOpSym(w[k]) && Top(open) {
      var i := PairEndingAtFound(w, k, open);
    }
    if exists i :: 0 <= i < k && IsOpSym(w[i]) && IsOpSym(w[k]) && Balanced(w[i + 1..k]) {
      var i :| 0 <= i < k && IsOpSym(w[i]) && IsOpSym(w[k]) && Balanced(w[i + 1..k]);
      PairEndingAtScanned(w, k, open, i);
    }
  }

  lemma PairFromSplit(w: string, k: nat)
    requires k < |w|
    ensures PairFrom(w, k) <==>
            (exists i :: 0 <= i < k && IsOpSym(w[i]) && IsOpSym(w[k]) && Balanced(w[i + 1..k])) || PairFrom(w, k + 1)
  {
    if PairFrom(w, k) && !PairFrom(w, k + 1) {
      var i, j :| 0 <= i < j < |w| && k <= j && IsOpSym(w[i]) && IsOpSym(w[j]) && Balanced(w[i + 1..j]);
      assert j == k;
    }
    if exists i :: 0 <= i < k && IsOpSym(w[i]) && IsOpSym(w[k]) && Balanced(w[i + 1..k]) {
      var i :| 0 <= i < k && IsOpSym(w[i]) && IsOpSym(w[k]) && Balanced(w[i + 1..k]);
      assert 0 <= i < k < |w| && k <= k && IsOpSym(w[i]) && IsOpSym(w[k]) && Balanced(w[i + 1..k]);
    }
  }

  lemma {:induction false} ChainFromPairs(w: string, k: nat)
    requires k <= |w|
    decreases |w| - k
    ensures ChainFrom(w, k, OpenAfter(w, k)) <==> PairFrom(w, k)
  {
    if k < |w| {
      var open := OpenAfter(w, k);
      OpenAfterRecords(w, k);
      PairEndingAt(w, k, open);
      PairFromSplit(w, k);
      ChainFromPairs(w, k + 1);
      assert OpenAfter(w, k + 1) == Update(open, w[k]);
    }
  }

  /** The scan finds a chained operator exactly when two operators have balanced text
      between them. */
  lemma ChainedIff(w: string)
    ensures Chained(w) <==> TwoOperators(w)
  {
    ChainFromPairs(w, 0);
  }

  // ---------------------------------------------------------------------------
  // The parser scans like `ChainFrom`: each call is one open group, which has read an
  // operator exactly when its frame holds one. A call that fails has met a chained
  // operator; one that returns leaves the scan where the caller resumes it, with its own
  // group closed.

  lemma {:induction false} LoopChain(items: seq<LexerResult>, w: string, pos: nat, f: Frame, outer: seq<bool>)
    requires Consumable(items, pos) && FrameOK(items, pos, f) && Transcript(items, w)
    decreases |items| - pos, 2
    ensures var r := ParseLoop(items, pos, f);
            && (r.Failure? ==> (r.error.ChainedOperator? <==> ChainFrom(w, pos, [f.op.Some?] + outer)))
            && (r.Success? ==> ChainFrom(w, pos, [f.op.Some?] + outer) == ChainFrom(w, r.value.next, outer))
  {
    if pos < |items| && items[pos].LexFailed? {
      if pos < |w| {
        SpellsAt(items, 0, w, pos);
      }
    } else if pos < |items| {
      CharAt(items, w, pos);
      match f.state
      case ExpStmt => StmtChain(items, w, pos, f, outer);
      case ExpOpOrClose => OpOrCloseChain(items, w, pos, f, outer);
      case ExpClose => CloseChain(items, w, pos, f, outer);
    }
  }

  /** The `expClose` case: a `)` closes the group, and an operator is a second one. */
  lemma CloseChain(items: seq<LexerResult>, w: string, pos: nat, f: Frame, outer: seq<bool>)
    requires Consumable(items, pos) && FrameOK(items, pos, f) && Transcript(items, w)
    requires pos < |items| && items[pos].Lexed? && f.state == ExpClose
    ensures var r := ParseLoop(items, pos, f);
            && (r.Failure? ==> (r.error.ChainedOperator? <==> ChainFrom(w, pos, [f.op.Some?] + outer)))
            && (r.Success? ==> ChainFrom(w, pos, [f.op.Some?] + outer) == ChainFrom(w, r.value.next, outer))
  {
    CharAt(items, w, pos);
    ItemAt(items, pos);
    if items[pos].l.t == LTCloseParen {
      ChainClose(w, pos, [f.op.Some?] + outer);
    } else {
      ChainOp(w, pos, [f.op.Some?] + outer);
    }
  }

  lemma {:induction false} StmtChain(items: seq<LexerResult>, w: string, pos: nat, f: Frame, outer: seq<bool>)
    requires Consumable(items, pos) && FrameOK(items, pos, f) && Transcript(items, w)
    requires pos < |items| && items[pos].Lexed? && f.state == ExpStmt
    decreases |items| - pos, 1
    ensures var r := ExpectStmt(items, pos, f);
            && (r.Failure? ==> (r.error.ChainedOperator? <==> ChainFrom(w, pos, [f.op.Some?] + outer)))
            && (r.Success? ==> ChainFrom(w, pos, [f.op.Some?] + outer) == ChainFrom(w, r.value.next, outer))
  {
    ItemAt(items, pos);
    CharAt(items, w, pos);
    var l := items[pos].l;
    match l.t
    case LTFalse => PassChain(items, w, pos, f, Fill(f, FalseStmt), outer);
    case LTTrue => PassChain(items, w, pos, f, Fill(f, TrueStmt), outer);
    case LTNegate => PassChain(items, w, pos, f, WithPick(f, Negate(Pick(f))), outer);
    case LTStatement =>
      PassChain(items, w, pos, f, Fill(f.(atomics := f.atomics + {AlphaToIdx(l.v)}), AtomicStmt(l.v)), outer);
    case LTOpenParen => OpenChain(items, w, pos, f, outer);
  }

  /** A constant, a letter or `!`: the scan passes over it and the frame keeps its operator. */
  lemma {:induction false} PassChain(items: seq<LexerResult>, w: string, pos: nat, f: Frame, g: Frame, outer: seq<bool>)
    requires Transcript(items, w) && pos < |w|
    requires w[pos] != '(' && w[pos] != ')' && !IsOpSym(w[pos])
    requires Consumable(items, pos + 1) && FrameOK(items, pos + 1, g) && g.op == f.op
    decreases |items| - pos, 0
    ensures var r := ParseLoop(items, pos + 1, g);
            && (r.Failure? ==> (r.error.ChainedOperator? <==> ChainFrom(w, pos, [f.op.Some?] + outer)))
            && (r.Success? ==> ChainFrom(w, pos, [f.op.Some?] + outer) == ChainFrom(w, r.value.next, outer))
  {
    ChainPass(w, pos, [f.op.Some?] + outer);
    LoopChain(items, w, pos + 1, g, outer);
  }

  /** The `(` case of `expectStmt` unfolded: the nested call starts in a state the parser
      accepts, and after it the loop resumes with the group as the pending operand. */
  lemma OpenStep(items: seq<LexerResult>, pos: nat, f: Frame)
    requires Consumable(items, pos) && FrameOK(items, pos, f)
    requires pos < |items| && items[pos].Lexed? && items[pos].l.t == LTOpenParen && f.state == ExpStmt
    ensures Consumable(items, pos + 1) && StateAt(LexStatement, items, pos + 1) == LexStatement
    ensures var inner := ParseRecursive(items, pos + 1);
            && (inner.Failure? ==> ExpectStmt(items, pos, f) == Failure(inner.error))
            && (inner.Success? ==>
                  var g := Fill(f.(atomics := f.atomics + inner.value.atomics), inner.value.stmt);
                  && g.op == f.op
                  && Consumable(items, inner.value.next) && FrameOK(items, inner.value.next, g)
                  && ExpectStmt(items, pos, f) == ParseLoop(items, inner.value.next, g))
  {
    ItemAt(items, pos);
  }

  /** The `(` case: the nested call is a new innermost group. */
  lemma {:induction false} OpenChain(items: seq<LexerResult>, w: string, pos: nat, f: Frame, outer: seq<bool>)
    requires Consumable(items, pos) && FrameOK(items, pos, f) && Transcript(items, w)
    requires pos < |items| && items[pos].Lexed? && items[pos].l.t == LTOpenParen && f.state == ExpStmt
    decreases |items| - pos, 0
    ensures var r := ExpectStmt(items, pos, f);
            && (r.Failure? ==> (r.error.ChainedOperator? <==> ChainFrom(w, pos, [f.op.Some?] + outer)))
            && (r.Success? ==> ChainFrom(w, pos, [f.op.Some?] + outer) == ChainFrom(w, r.value.next, outer))
  {
    OpenStep(items, pos, f);
    CharAt(items, w, pos);
    var here := [f.op.Some?] + outer;
    ChainOpen(w, pos, here);
    RecursiveChain(items, w, pos + 1, here);
    var inner := ParseRecursive(items, pos + 1);
    if inner.Success? {
      LoopChain(items, w, inner.value.next, Fill(f.(atomics := f.atomics + inner.value.atomics), inner.value.stmt), outer);
    }
  }

  lemma {:induction false} OpOrCloseChain(items: seq<LexerResult>, w: string, pos: nat, f: Frame, outer: seq<bool>)
    requires Consumable(items, pos) && FrameOK(items, pos, f) && Transcript(items, w)
    requires pos < |items| && items[pos].Lexed? && f.state == ExpOpOrClose
    decreases |items| - pos, 1
    ensures var r := ExpectOpOrClose(items, pos, f);
            && (r.Failure? ==> (r.error.ChainedOperator? <==> ChainFrom(w, pos, [f.op.Some?] + outer)))
            && (r.Success? ==> ChainFrom(w, pos, [f.op.Some?] + outer) == ChainFrom(w, r.value.next, outer))
  {
    ItemAt(items, pos);
    CharAt(items, w, pos);
    var l := items[pos].l;
    if l.t == LTOperator {
      ChainOp(w, pos, [f.op.Some?] + outer);
      LoopChain(items, w, pos + 1, f.(op := Some(ByteToOp(l.v)), state := ExpStmt), outer);
    } else {
      ChainClose(w, pos, [f.op.Some?] + outer);
    }
  }

  lemma {:induction false} RecursiveChain(items: seq<LexerResult>, w: string, pos: nat, outer: seq<bool>)
    requires Consumable(items, pos) && StateAt(LexStatement, items, pos) == LexStatement && Transcript(items, w)
    decreases |items| - pos, 3
    ensures var r := ParseRecursive(items, pos);
            && (r.Failure? ==> (r.error.ChainedOperator? <==> ChainFrom(w, pos, [false] + outer)))
            && (r.Success? ==> ChainFrom(w, pos, [false] + outer) == ChainFrom(w, r.value.next, outer))
  {
    LoopChain(items, w, pos, StartFrame, outer);
  }

  // ---------------------------------------------------------------------------
  // Whole inputs

  /** A top-level call on a stream that spells `w`, and then holds at most the lexer's
      error, fails exactly when `w` is chained or the error is there; it reports a chained
      operator exactly when `w` is chained. */
  lemma TopChain(items: seq<LexerResult>, w: string)
    requires Transcript(items, w) && Consumable(items, 0)
    requires forall q :: 0 <= q <= |items| ==> 0 + NestDepth(items[..q]) >= 0
    ensures ParseRecursive(items, 0).Failure? <==> Chained(w) || |items| > |w|
    ensures ParseRecursive(items, 0).Failure? ==> (ParseRecursive(items, 0).error.ChainedOperator? <==> Chained(w))
  {
    RecursiveChain(items, w, 0, []);
    assert [false] + [] == [false];
    var r := ParseRecursive(items, 0);
    if r.Success? {
      TopCallReachesEnd(items);
      assert !ChainFrom(w, |items|, []);
    } else if r.error.LexFailure? {
      assert EndsWithError(items, r.error.err);
      if |items| == |w| {
        SpellsAt(items, 0, w, |items| - 1);
      }
    }
  }

  /** On an input the lexer accepts, parsing fails exactly when some group holds two
      operators at its own level, and then with a chained operator. */
  lemma CleanParse(input: string)
    requires NoError(Lex(input))
    ensures Parse(input).Failure? <==> Chained(RemoveAllWS(input))
    ensures Parse(input).Failure? ==> Parse(input).error.ChainedOperator?
  {
    ParseErrors(input);
  }

  /** Which error parsing reports, on every input. A lexer error is passed up through every
      pending call as soon as the parser reads it (parse.go:258-261), so parsing fails with
      a chained operator exactly when the text the lexer read before any error is chained,
      and otherwise fails exactly when the lexer reported an error, with that error. */
  lemma ParseErrors(input: string)
    ensures Parse(input).Failure? <==> Chained(LexedText(input)) || !NoError(Lex(input))
    ensures Parse(input).Failure? ==> (Parse(input).error.ChainedOperator? <==> Chained(LexedText(input)))
    ensures Parse(input).Failure? && !Chained(LexedText(input)) ==>
              Parse(input).error.LexFailure? && EndsWithError(Lex(input), Parse(input).error.err)
  {
    LexTranscript(input);
    RunNesting(RemoveAllWS(input), LexStatement, LexerState(0, false));
    TopChain(Lex(input), LexedText(input));
  }

  /** Parsing succeeds exactly on the well-formed inputs in which no group holds two
      operators at its own level; on the other well-formed inputs it reports a chained
      operator. */
  lemma ParseSucceedsIff(input: string)
    ensures Parse(input).Success? <==> WellFormed(RemoveAllWS(input)) && !Chained(RemoveAllWS(input))
    ensures WellFormed(RemoveAllWS(input)) && Chained(RemoveAllWS(input)) ==>
              Parse(input).Failure? && Parse(input).error.ChainedOperator?
    ensures Parse(input).Success? <==> WellFormed(RemoveAllWS(input)) && !TwoOperators(RemoveAllWS(input))
  {
    ChainedIff(RemoveAllWS(input));
    LexAccepts(input);
    if NoError(Lex(input)) {
      CleanParse(input);
    } else {
      ParseAgreesWithLexer(input);
    }
  }
}
