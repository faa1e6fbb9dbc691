/** The tokenizer of lex.go: whitespace removal, then a two-state machine
    (`lexStatement` / `lexOperator`) that turns each remaining character into one
    typed lexeme while tracking parenthesis depth and whether end of input is legal.

    The goroutine and channel of `lex` are replaced by a sequence of results that
    ends either cleanly or with exactly one trailing error. */
module Lexer {
  import opened Results
  import opened Letters

  // Operator and negation symbols (lex.go:10-17).
  const NegateSym: char := '!'
  const AndSym: char := '&'
  const OrSym: char := '|'
  const XorSym: char := '^'
  const CondSym: char := '>'
  const BicondSym: char := '='

  predicate IsOpSym(c: char) {
    c == AndSym || c == OrSym || c == XorSym || c == CondSym || c == BicondSym
  }

  /** Go's `unicode.IsSpace`: the Latin-1 spaces plus the other Unicode White_Space code points. */
  predicate IsSpace(c: char) {
    var n := c as int;
    || (0x09 <= n <= 0x0D) || n == 0x20 || n == 0x85 || n == 0xA0
    || n == 0x1680 || (0x2000 <= n <= 0x200A) || n == 0x2028 || n == 0x2029
    || n == 0x202F || n == 0x205F || n == 0x3000
  }

  /** `removeAllWS`: every whitespace character is dropped, every other one kept. */
  function RemoveAllWS(s: string): (r: string)
    ensures forall i :: 0 <= i < |r| ==> !IsSpace(r[i])
  {
    if s == [] then []
    else (if IsSpace(s[0]) then [] else [s[0]]) + RemoveAllWS(s[1..])
  }

  /** Every non-whitespace character survives whitespace removal as often as it occurs. */
  lemma {:induction false} RemoveAllWSKeeps(s: string, c: char)
    requires !IsSpace(c)
    ensures multiset(RemoveAllWS(s))[c] == multiset(s)[c]
  {
    if s != [] {
      assert s == [s[0]] + s[1..];
      RemoveAllWSKeeps(s[1..], c);
    }
  }

  /** A text without whitespace is left as it is. */
  lemma {:induction false} RemoveAllWSNone(s: string)
    requires forall i :: 0 <= i < |s| ==> !IsSpace(s[i])
    ensures RemoveAllWS(s) == s
  {
    if s != [] {
      RemoveAllWSNone(s[1..]);
    }
  }

  /** Whitespace removal works piecewise, so the kept characters stay in their original order. */
  lemma {:induction false} RemoveAllWSAppend(a: string, b: string)
    ensures RemoveAllWS(a + b) == RemoveAllWS(a) + RemoveAllWS(b)
  {
    if a == [] {
      assert a + b == b;
    } else {
      var keep := if IsSpace(a[0]) then [] else [a[0]];
      assert (a + b)[0] == a[0];
      assert (a + b)[1..] == a[1..] + b;
      assert RemoveAllWS(a + b) == keep + RemoveAllWS(a[1..] + b);
      RemoveAllWSAppend(a[1..], b);
      assert RemoveAllWS(a) == keep + RemoveAllWS(a[1..]);
    }
  }

  // ---------------------------------------------------------------------------
  // Lexemes and lexer state (lex.go:19-49)

  datatype LexemeType =
    | LTFalse | LTTrue | LTNegate | LTOperator | LTOpenParen | LTCloseParen | LTStatement

  /** A lexeme carries its kind and the character it was made from. */
  datatype Lexeme = Lexeme(t: LexemeType, v: char)

  /** The state functions `lexStatement` and `lexOperator`. */
  datatype StateFn = LexStatement | LexOperator

  datatype LexError =
    | UnexpectedChar(c: char, expected: StateFn)  // the state says which characters were expected
    | UnmatchedClose
    | UnexpectedEOF

  /** One item of the lexer's output stream (`lexerResult`). */
  datatype LexerResult = Lexed(l: Lexeme) | LexFailed(err: LexError)

  /** The mutable part of `lexer`: nesting depth (never negative) and the end-of-input flag. */
  datatype LexerState = LexerState(nestCnt: nat, allowEOF: bool)

  /** What a state function returns on success. */
  datatype Step = Step(t: LexemeType, next: StateFn, lx: LexerState)

  // ---------------------------------------------------------------------------
  // Character classes: a description of the accepted language that does not
  // mention the state machine.

  /** Characters that may start a statement: after the start, `!`, `(` or an operator. */
  predicate ValueStart(c: char) {
    c == NegateSym || c == '(' || c == '0' || c == '1' || IsLetter(c)
  }

  /** Characters that may end a statement. */
  predicate ValueEnd(c: char) {
    c == ')' || c == '0' || c == '1' || IsLetter(c)
  }

  /** Characters that may follow the end of a statement. */
  predicate CloseOrOp(c: char) {
    c == ')' || IsOpSym(c)
  }

  predicate InAlphabet(c: char) {
    ValueStart(c) || CloseOrOp(c)
  }

  /** The kind of lexeme a character becomes; it depends on the character alone. */
  function KindOf(c: char): LexemeType
    requires InAlphabet(c)
  {
    if c == NegateSym then LTNegate
    else if c == '(' then LTOpenParen
    else if c == ')' then LTCloseParen
    else if c == '0' then LTFalse
    else if c == '1' then LTTrue
    else if IsLetter(c) then LTStatement
    else LTOperator
  }

  /** The change in parenthesis depth a character causes. */
  function Delta(c: char): int {
    if c == '(' then 1 else if c == ')' then -1 else 0
  }

  /** Parenthesis depth at the end of `w` (opening minus closing). */
  function Depth(w: string): int {
    if w == [] then 0 else Delta(w[0]) + Depth(w[1..])
  }

  lemma {:induction false} DepthAppend(a: string, b: string)
    ensures Depth(a + b) == Depth(a) + Depth(b)
  {
    if a == [] {
      assert a + b == b;
    } else {
      assert (a + b)[0] == a[0];
      assert (a + b)[1..] == a[1..] + b;
      DepthAppend(a[1..], b);
    }
  }

  /** Position `i` of `w` holds a character allowed by what precedes it. */
  predicate Admissible(w: string, i: nat)
    requires i < |w|
  {
    if i == 0 then ValueStart(w[0])
    else if ValueEnd(w[i - 1]) then CloseOrOp(w[i])
    else ValueStart(w[i])
  }

  /** The language the lexer accepts (after whitespace removal): non-empty, every character
      admissible after its predecessor, ending in a statement end, parentheses balanced
      and never closed below depth zero. */
  predicate WellFormed(w: string) {
    && |w| > 0
    && (forall i :: 0 <= i < |w| ==> Admissible(w, i))
    && ValueEnd(w[|w| - 1])
    && (forall i :: 0 <= i <= |w| ==> Depth(w[..i]) >= 0)
    && Depth(w) == 0
  }

  // ---------------------------------------------------------------------------
  // The state machine (lex.go:105-155)

  /** The lexer's `allowEOF` discipline: end of input is legal exactly in
      `lexOperator` at depth zero. */
  predicate EOFRule(next: StateFn, lx: LexerState) {
    lx.allowEOF == (next == LexOperator && lx.nestCnt == 0)
  }

  /** The lexeme kinds each state accepts. */
  predicate Accepts(st: StateFn, t: LexemeType) {
    match st
    case LexStatement => !(t.LTCloseParen? || t.LTOperator?)
    case LexOperator => t.LTCloseParen? || t.LTOperator?
  }

  /** The state a lexeme of kind `t` leaves the machine in. */
  function After(t: LexemeType): StateFn {
    match t
    case LTFalse | LTTrue | LTStatement | LTCloseParen => LexOperator
    case LTNegate | LTOpenParen | LTOperator => LexStatement
  }

  /** `nest`: one level deeper, and end of input is not legal; the `denest` of the matching
      `)` restores the depth. */
  function Nest(lx: LexerState): (r: LexerState)
    ensures !r.allowEOF
    ensures Denest(r).Some? && Denest(r).value.nestCnt == lx.nestCnt
  {
    LexerState(lx.nestCnt + 1, false)
  }

  /** `denest`: fails at depth zero; otherwise one level shallower, and end of input is
      legal exactly when that reaches depth zero. */
  function Denest(lx: LexerState): (r: Option<LexerState>)
    ensures r.Some? <==> lx.nestCnt > 0
    ensures r.Some? ==> r.value.nestCnt + 1 == lx.nestCnt && EOFRule(LexOperator, r.value)
  {
    if lx.nestCnt == 0 then None
    else Some(LexerState(lx.nestCnt - 1, lx.nestCnt - 1 == 0))
  }

  /** `lexStatement` (lex.go:120-140). */
  function StatementStep(n: char, lx: LexerState): (r: Result<Step, LexError>)
    ensures r.Success? <==> ValueStart(n)
    ensures r.Failure? ==> r.error == UnexpectedChar(n, LexStatement)
    ensures r.Success? ==> && r.value.t == KindOf(n)
                           && r.value.next == After(r.value.t)
                           && r.value.lx.nestCnt == lx.nestCnt + Delta(n)
                           && EOFRule(r.value.next, r.value.lx)
  {
    // By default end of input is allowed when no parenthesis is open.
    var lx := lx.(allowEOF := lx.nestCnt == 0);
    if n == NegateSym then Success(Step(LTNegate, LexStatement, lx.(allowEOF := false)))
    else if n == '(' then Success(Step(LTOpenParen, LexStatement, Nest(lx)))
    else if n == '0' then Success(Step(LTFalse, LexOperator, lx))
    else if n == '1' then Success(Step(LTTrue, LexOperator, lx))
    else if IsLetter(n) then Success(Step(LTStatement, LexOperator, lx))
    else Failure(UnexpectedChar(n, LexStatement))
  }

  /** `lexOperator` (lex.go:142-155). */
  function OperatorStep(n: char, lx: LexerState): (r: Result<Step, LexError>)
    ensures r.Success? <==> IsOpSym(n) || (n == ')' && lx.nestCnt > 0)
    ensures r.Failure? ==> r.error == (if n == ')' then UnmatchedClose else UnexpectedChar(n, LexOperator))
    ensures r.Success? ==> && r.value.t == KindOf(n)
                           && r.value.next == After(r.value.t)
                           && r.value.lx.nestCnt == lx.nestCnt + Delta(n)
                           && EOFRule(r.value.next, r.value.lx)
  {
    if n == ')' then
      match Denest(lx)
      case None => Failure(UnmatchedClose)
      case Some(lx') => Success(Step(LTCloseParen, LexOperator, lx'))
    else if IsOpSym(n) then Success(Step(LTOperator, LexStatement, lx.(allowEOF := false)))
    else Failure(UnexpectedChar(n, LexOperator))
  }

  /** Calling the current state function. */
  function StepFrom(sfn: StateFn, n: char, lx: LexerState): (r: Result<Step, LexError>)
    ensures r.Success? ==> Accepts(sfn, r.value.t)
  {
    match sfn
    case LexStatement => StatementStep(n, lx)
    case LexOperator => OperatorStep(n, lx)
  }

  /** `lexer.run` (lex.go:73-93) on the input that has not been consumed yet: one lexeme
      per character, stopping after the first error; at end of input an error is
      emitted exactly when `allowEOF` is false. */
  function Run(rest: string, sfn: StateFn, lx: LexerState): (r: seq<LexerResult>)
    decreases |rest|
    ensures forall q :: 0 <= q < |r| - 1 ==> r[q].Lexed?
    ensures forall q :: 0 <= q < |r| && r[q].Lexed? ==>
              q < |rest| && InAlphabet(rest[q]) && r[q].l == Lexeme(KindOf(rest[q]), rest[q])
    ensures |r| == |rest| || (|r| > 0 && r[|r| - 1].LexFailed?)
    ensures |r| <= |rest| + 1
  {
    if rest == [] then
      if !lx.allowEOF then [LexFailed(UnexpectedEOF)] else []
    else
      match StepFrom(sfn, rest[0], lx)
      case Failure(e) => [LexFailed(e)]
      case Success(st) => [Lexed(Lexeme(st.t, rest[0]))] + Run(rest[1..], st.next, st.lx)
  }

  /** `lex`: whitespace removal, then the machine from `lexStatement` at depth zero with
      end of input not yet legal (lex.go:62-71). Its output is always a well-formed
      stream. */
  function Lex(input: string): (r: seq<LexerResult>)
    ensures WellFormedStream(r)
  {
    RunStreamFrom(RemoveAllWS(input), LexStatement, LexerState(0, false));
    Run(RemoveAllWS(input), LexStatement, LexerState(0, false))
  }

  predicate NoError(items: seq<LexerResult>) {
    forall x :: x in items ==> x.Lexed?
  }

  // ---------------------------------------------------------------------------
  // The language of the lexer's output stream, as the parser relies on it.

  /** The state the machine is in before item `q` of a stream that started in `st0`. */
  function StateAt(st0: StateFn, items: seq<LexerResult>, q: nat): StateFn
    requires q <= |items| && (q == 0 || items[q - 1].Lexed?)
  {
    if q == 0 then st0 else After(items[q - 1].l.t)
  }

  /** A lexeme whose kind is the kind of its character. */
  predicate LexemeOK(l: Lexeme) {
    InAlphabet(l.v) && l.t == KindOf(l.v)
  }

  /** Only the last item of a stream can be an error. */
  predicate ErrorsLast(items: seq<LexerResult>) {
    forall q :: 0 <= q < |items| - 1 ==> items[q].Lexed?
  }

  /** Each lexeme is accepted in the state its predecessor leaves. */
  predicate LexemesAccepted(st0: StateFn, items: seq<LexerResult>)
    requires ErrorsLast(items)
  {
    forall q {:trigger StateAt(st0, items, q)} :: 0 <= q < |items| && items[q].Lexed? ==>
      LexemeOK(items[q].l) && Accepts(StateAt(st0, items, q), items[q].l.t)
  }

  /** A stream ends cleanly only in `lexOperator`. */
  predicate CleanEndInOperator(st0: StateFn, items: seq<LexerResult>) {
    (|items| == 0 || items[|items| - 1].Lexed?) ==> StateAt(st0, items, |items|) == LexOperator
  }

  /** A stream produced from state `st0`: errors only last, each lexeme accepted in the
      state its predecessor leaves, and a clean end only in `lexOperator`. */
  predicate StreamFrom(st0: StateFn, items: seq<LexerResult>) {
    ErrorsLast(items) && LexemesAccepted(st0, items) && CleanEndInOperator(st0, items)
  }

  /** A stream the parser can consume without reaching one of its panics. */
  predicate WellFormedStream(items: seq<LexerResult>) {
    StreamFrom(LexStatement, items)
  }

  lemma StateAtCons(st: StateFn, x: LexerResult, tail: seq<LexerResult>, q: nat)
    requires x.Lexed? && 1 <= q <= |tail| + 1 && ([x] + tail)[q - 1].Lexed?
    ensures StateAt(st, [x] + tail, q) == StateAt(After(x.l.t), tail, q - 1)
  {
    if q > 1 {
      assert ([x] + tail)[q - 1] == tail[q - 2];
    }
  }

  /** The three parts of StreamFrom, proved for a stream with one more lexeme in front. */
  lemma StreamConsErrorsLast(x: LexerResult, tail: seq<LexerResult>)
    requires x.Lexed? && ErrorsLast(tail)
    ensures ErrorsLast([x] + tail)
  {
    var items := [x] + tail;
    forall q | 0 <= q < |items| - 1
      ensures items[q].Lexed?
    {
      if q > 0 {
        assert items[q] == tail[q - 1];
      }
    }
  }

  lemma StreamConsAccepted(st: StateFn, x: LexerResult, tail: seq<LexerResult>)
    requires x.Lexed? && LexemeOK(x.l) && Accepts(st, x.l.t)
    requires ErrorsLast(tail) && LexemesAccepted(After(x.l.t), tail)
    requires ErrorsLast([x] + tail)
    ensures LexemesAccepted(st, [x] + tail)
  {
    var items := [x] + tail;
    forall q | 0 <= q < |items| && items[q].Lexed?
      ensures LexemeOK(items[q].l) && Accepts(StateAt(st, items, q), items[q].l.t)
    {
      if q > 0 {
        assert items[q] == tail[q - 1];
        StateAtCons(st, x, tail, q);
      }
    }
  }

  lemma StreamConsCleanEnd(st: StateFn, x: LexerResult, tail: seq<LexerResult>)
    requires x.Lexed? && CleanEndInOperator(After(x.l.t), tail)
    ensures CleanEndInOperator(st, [x] + tail)
  {
    var items := [x] + tail;
    if items[|items| - 1].Lexed? {
      StateAtCons(st, x, tail, |items|);
      if |tail| > 0 {
        assert items[|items| - 1] == tail[|tail| - 1];
      }
    }
  }

  lemma StreamCons(st: StateFn, x: LexerResult, tail: seq<LexerResult>)
    requires x.Lexed? && LexemeOK(x.l) && Accepts(st, x.l.t)
    requires StreamFrom(After(x.l.t), tail)
    ensures StreamFrom(st, [x] + tail)
  {
    StreamConsErrorsLast(x, tail);
    StreamConsAccepted(st, x, tail);
    StreamConsCleanEnd(st, x, tail);
  }

  /** Whatever the machine emits from a state obeying the EOF rule is a well-formed stream. */
  lemma {:induction false} RunStreamFrom(rest: string, sfn: StateFn, lx: LexerState)
    requires EOFRule(sfn, lx)
    decreases |rest|
    ensures StreamFrom(sfn, Run(rest, sfn, lx))
  {
    if rest != [] {
      match StepFrom(sfn, rest[0], lx)
      case Failure(_) =>
      case Success(st) =>
        RunStreamFrom(rest[1..], st.next, st.lx);
        StreamCons(sfn, Lexed(Lexeme(st.t, rest[0])), Run(rest[1..], st.next, st.lx));
    }
  }

  /** Change in nesting depth caused by one stream item. */
  function ItemDelta(x: LexerResult): int {
    if x.Lexed? && x.l.t == LTOpenParen then 1
    else if x.Lexed? && x.l.t == LTCloseParen then -1
    else 0
  }

  /** Nesting depth at the end of a stretch of stream items. */
  function NestDepth(items: seq<LexerResult>): int {
    if items == [] then 0 else ItemDelta(items[0]) + NestDepth(items[1..])
  }

  lemma {:induction false} NestDepthAppend(a: seq<LexerResult>, b: seq<LexerResult>)
    ensures NestDepth(a + b) == NestDepth(a) + NestDepth(b)
  {
    if a == [] {
      assert a + b == b;
    } else {
      assert (a + b)[0] == a[0];
      assert (a + b)[1..] == a[1..] + b;
      NestDepthAppend(a[1..], b);
    }
  }

  /** Nesting never goes negative: no prefix of the output closes more groups than were open. */
  lemma {:induction false} RunNesting(rest: string, sfn: StateFn, lx: LexerState)
    decreases |rest|
    ensures forall q :: 0 <= q <= |Run(rest, sfn, lx)| ==> lx.nestCnt + NestDepth(Run(rest, sfn, lx)[..q]) >= 0
  {
    var r := Run(rest, sfn, lx);
    if rest != [] {
      match StepFrom(sfn, rest[0], lx)
      case Failure(_) =>
        forall q | 0 <= q <= |r| ensures lx.nestCnt + NestDepth(r[..q]) >= 0 {
          if q == 1 {
            assert r[..q] == [r[0]];
          }
        }
      case Success(st) =>
        var x := Lexed(Lexeme(st.t, rest[0]));
        var tail := Run(rest[1..], st.next, st.lx);
        assert r == [x] + tail;
        RunNesting(rest[1..], st.next, st.lx);
        assert forall q' :: 0 <= q' <= |tail| ==> st.lx.nestCnt + NestDepth(tail[..q']) >= 0;
        forall q | 0 <= q <= |r| ensures lx.nestCnt + NestDepth(r[..q]) >= 0 {
          if q > 0 {
            assert r[..q][0] == x;
            assert r[..q][1..] == tail[..q - 1];
            assert ItemDelta(x) == Delta(rest[0]);
            assert st.lx.nestCnt + NestDepth(tail[..q - 1]) >= 0;
          }
        }
    }
  }

  // ---------------------------------------------------------------------------
  // The machine accepts exactly the well-formed inputs.

  /** The state the machine is in after accepting the prefix `p`. */
  function PrefixState(p: string): StateFn {
    if |p| > 0 && ValueEnd(p[|p| - 1]) then LexOperator else LexStatement
  }

  /** The first `k` characters of `w` break none of the well-formedness rules. */
  predicate PrefixOK(w: string, k: nat)
    requires k <= |w|
  {
    && (forall i :: 0 <= i < k ==> Admissible(w, i))
    && (forall i :: 0 <= i <= k ==> Depth(w[..i]) >= 0)
  }

  /** The lexer state after accepting a good prefix of `w` of length `k`. */
  function PrefixLexer(w: string, k: nat): LexerState
    requires k <= |w| && PrefixOK(w, k)
  {
    var d := Depth(w[..k]);
    LexerState(d, PrefixState(w[..k]) == LexOperator && d == 0)
  }

  lemma PrefixOKStep(w: string, k: nat)
    requires k < |w| && PrefixOK(w, k)
    ensures PrefixOK(w, k + 1) <==> Admissible(w, k) && Depth(w[..k + 1]) >= 0
  {
  }

  /** One step of the machine after a good prefix succeeds exactly when the prefix one
      character longer is still good, and then lands in that prefix's state. */
  lemma StepAgrees(w: string, k: nat)
    requires k < |w| && PrefixOK(w, k)
    ensures var r := StepFrom(PrefixState(w[..k]), w[k], PrefixLexer(w, k));
            && (r.Success? <==> PrefixOK(w, k + 1))
            && (r.Success? ==> && r.value.t == KindOf(w[k])
                               && r.value.next == PrefixState(w[..k + 1])
                               && r.value.lx == PrefixLexer(w, k + 1))
            && (r.Failure? ==> r.error != UnexpectedEOF)
  {
    var p := w[..k];
    var c := w[k];
    assert w[..k + 1] == p + [c];
    DepthAppend(p, [c]);
    assert Depth([c]) == Delta(c);
    PrefixOKStep(w, k);
  }

  /** From the state reached after a good prefix, the rest of the input lexes without error
      exactly when the whole input is well formed, and ends in "unexpected EOF" exactly
      when every character is acceptable but the input stops too early. */
  lemma {:induction false} RunAccepts(w: string, k: nat)
    requires k <= |w| && PrefixOK(w, k)
    decreases |w| - k
    ensures var r := Run(w[k..], PrefixState(w[..k]), PrefixLexer(w, k));
            && (NoError(r) <==> WellFormed(w))
            && (EndsWithError(r, UnexpectedEOF) <==> PrefixOK(w, |w|) && !WellFormed(w))
  {
    var r := Run(w[k..], PrefixState(w[..k]), PrefixLexer(w, k));
    if k == |w| {
      assert w[k..] == [] && w[..k] == w;
    } else {
      var c := w[k];
      assert w[k..] == [c] + w[k + 1..];
      StepAgrees(w, k);
      match StepFrom(PrefixState(w[..k]), c, PrefixLexer(w, k))
      case Failure(e) =>
        assert r == [LexFailed(e)];
        assert !PrefixOK(w, |w|) by {
          if PrefixOK(w, |w|) {
            assert PrefixOK(w, k + 1);
          }
        }
      case Success(s) =>
        var tail := Run(w[k + 1..], s.next, s.lx);
        assert r == [Lexed(Lexeme(s.t, c))] + tail;
        RunAccepts(w, k + 1);
        assert NoError(r) <==> NoError(tail);
    }
  }

  /** The stream ends with error `e`. */
  predicate EndsWithError(items: seq<LexerResult>, e: LexError) {
    |items| > 0 && items[|items| - 1] == LexFailed(e)
  }

  /** Lexing succeeds exactly on inputs whose non-whitespace characters are well formed, and
      reports "unexpected EOF" exactly on those that are a good but unfinished prefix. */
  lemma LexAccepts(input: string)
    ensures NoError(Lex(input)) <==> WellFormed(RemoveAllWS(input))
    ensures EndsWithError(Lex(input), UnexpectedEOF)
            <==> PrefixOK(RemoveAllWS(input), |RemoveAllWS(input)|) && !WellFormed(RemoveAllWS(input))
  {
    var w := RemoveAllWS(input);
    assert w[..0] == [] && w[0..] == w;
    assert PrefixOK(w, 0);
    assert PrefixState(w[..0]) == LexStatement;
    assert PrefixLexer(w, 0) == LexerState(0, false);
    RunAccepts(w, 0);
  }

  /** Consequences of the EOF rule: empty input, a trailing `!` or operator, and an unclosed
      group are all rejected, with "unexpected EOF" when nothing else went wrong first. */
  lemma LexRejectsIncomplete(input: string)
    requires var w := RemoveAllWS(input);
             |w| == 0 || w[|w| - 1] == NegateSym || IsOpSym(w[|w| - 1]) || Depth(w) > 0
    ensures !NoError(Lex(input))
    ensures PrefixOK(RemoveAllWS(input), |RemoveAllWS(input)|) ==> EndsWithError(Lex(input), UnexpectedEOF)
  {
    LexAccepts(input);
  }

  // ---------------------------------------------------------------------------
  // Streams that spell a text

  /** The lexeme the lexer emits for character `c`. */
  function TokenOf(c: char): LexerResult
    requires InAlphabet(c)
  {
    Lexed(Lexeme(KindOf(c), c))
  }

  /** From position `pos` on, the stream holds one lexeme per character of `w`. */
  predicate Spells(items: seq<LexerResult>, pos: nat, w: string) {
    pos + |w| <= |items| && forall q :: 0 <= q < |w| ==> InAlphabet(w[q]) && items[pos + q] == TokenOf(w[q])
  }

  lemma SpellsSplit(items: seq<LexerResult>, pos: nat, a: string, b: string)
    requires Spells(items, pos, a + b)
    ensures Spells(items, pos, a) && Spells(items, pos + |a|, b)
  {
    forall q | 0 <= q < |a|
      ensures InAlphabet(a[q]) && items[pos + q] == TokenOf(a[q])
    {
      assert (a + b)[q] == a[q];
    }
    forall q | 0 <= q < |b|
      ensures InAlphabet(b[q]) && items[pos + |a| + q] == TokenOf(b[q])
    {
      assert (a + b)[|a| + q] == b[q];
    }
  }

  lemma SpellsAt(items: seq<LexerResult>, pos: nat, w: string, q: nat)
    requires Spells(items, pos, w) && q < |w|
    ensures InAlphabet(w[q]) && items[pos + q] == TokenOf(w[q])
  {
  }

  /** After the text of a statement the lexer is in `lexOperator`. */
  lemma SpellsEnd(items: seq<LexerResult>, pos: nat, w: string)
    requires Spells(items, pos, w) && |w| > 0 && ValueEnd(w[|w| - 1])
    ensures items[pos + |w| - 1].Lexed? && After(items[pos + |w| - 1].l.t) == LexOperator
  {
    assert items[pos + (|w| - 1)] == TokenOf(w[|w| - 1]);
  }

  /** An input the lexer accepts is spelled, one lexeme per character, by its stream. */
  lemma LexSpells(input: string)
    requires NoError(Lex(input))
    ensures |Lex(input)| == |RemoveAllWS(input)| && Spells(Lex(input), 0, RemoveAllWS(input))
  {
    var items := Lex(input);
    var w := RemoveAllWS(input);
    forall q | 0 <= q < |w|
      ensures InAlphabet(w[q]) && items[q] == TokenOf(w[q])
    {
      assert items[q] in items;
    }
  }

  /** The characters the lexer turned into lexemes: the whole text without whitespace, or
      the part of it before the point where the lexer reported its error. */
  function LexedText(input: string): (u: string)
    ensures |u| <= |RemoveAllWS(input)| && u == RemoveAllWS(input)[..|u|]
  {
    var items := Lex(input);
    var w := RemoveAllWS(input);
    if NoError(items) || |items| == 0 then w else w[..|items| - 1]
  }

  /** The stream holds one lexeme per character of `w` and then at most one error. */
  predicate Transcript(items: seq<LexerResult>, w: string) {
    Spells(items, 0, w) && (|items| == |w| || (|items| == |w| + 1 && items[|w|].LexFailed?))
  }

  /** The lexer's output spells the text it read, and then holds its error if it reported
      one. */
  lemma LexTranscript(input: string)
    ensures Transcript(Lex(input), LexedText(input))
    ensures NoError(Lex(input)) <==> |Lex(input)| == |LexedText(input)|
    ensures NoError(Lex(input)) ==> LexedText(input) == RemoveAllWS(input)
  {
    var items := Lex(input);
    var w := RemoveAllWS(input);
    var u := LexedText(input);
    if NoError(items) {
      LexSpells(input);
    } else {
      var x :| x in items && !x.Lexed?;
      var e :| 0 <= e < |items| && items[e] == x;
      assert e == |items| - 1;
      forall q | 0 <= q < |u|
        ensures InAlphabet(u[q]) && items[q] == TokenOf(u[q])
      {
        assert items[q].Lexed?;
      }
    }
  }
}
