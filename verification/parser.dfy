/** The recursive-descent parser of parse.go (`stmtBuilder`, `parseRecursive`, `Parse`).

    The channel both the caller and its nested calls read from is modelled as the whole
    stream plus the position of the next unread item; every call returns the position
    after the last item it consumed. One call of `parseRecursive` is `ParseRecursive`,
    and its `for lr := range c` loop is `ParseLoop`, whose frame holds the loop's local
    variables.

    The three panics of the Go code (parse.go:202, 287, 304), and the nil statement the
    loop would build if the stream ended while a statement was expected, only happen on
    streams the lexer never produces: the parser requires `WellFormedStream`, which `Lex`
    ensures of every output. */
module Parser {
  import opened Results
  import opened Letters
  import opened Lexer
  import opened Truths
  import opened Stmts

  datatype ParseError =
    | LexFailure(err: LexError)    // the lexer's error, passed up through every pending call
    | ChainedOperator(l: Lexeme)   // a second operator where only a close or the end may come

  /** The local states `expStmt`, `expOpOrClose`, `expClose`. */
  datatype PState = ExpStmt | ExpOpOrClose | ExpClose

  /** `stmtBuilder`: the statement of one operand slot and the parity of the `!`s before it. */
  datatype Builder = Builder(inner: Option<Stmt>, negated: bool)

  /** `stmtBuilder.negate`: the slot keeps its statement and flips its parity. */
  function Negate(b: Builder): (r: Builder)
    ensures r.inner == b.inner
  {
    b.(negated := !b.negated)
  }

  /** `stmtBuilder.build`: at most one negation node around the slot's statement, so the
      result has the statement's letters and its value, flipped when the parity is odd. */
  function Build(b: Builder): (r: Stmt)
    requires b.inner.Some?
    ensures Atoms(r) == Atoms(b.inner.value)
  {
    if b.negated then NegatedStmt(b.inner.value) else b.inner.value
  }

  /** The local variables of one `parseRecursive` call. */
  datatype Frame = Frame(state: PState, left: Builder, right: Builder, op: Option<Op>, atomics: Occurrences)

  const EmptyBuilder := Builder(None, false)
  const StartFrame := Frame(ExpStmt, EmptyBuilder, EmptyBuilder, None, {})

  /** `pick`: the left slot until an operator has been read, the right slot after. */
  function Pick(f: Frame): Builder {
    if f.op.None? then f.left else f.right
  }

  /** The frame with its picked slot replaced by `b`; nothing else changes. */
  function WithPick(f: Frame, b: Builder): (r: Frame)
    ensures Pick(r) == b
    ensures r.state == f.state && r.op == f.op && r.atomics == f.atomics
    ensures f.op.None? ==> r.right == f.right
    ensures f.op.Some? ==> r.left == f.left
  {
    if f.op.None? then f.(left := b) else f.(right := b)
  }

  /** A statement fills the picked slot; then an operator (or the end) is expected if none
      has been read yet, and only the end otherwise. */
  function Fill(f: Frame, s: Stmt): (r: Frame)
    ensures Pick(r) == Builder(Some(s), Pick(f).negated)
    ensures r.op == f.op && r.atomics == f.atomics
    ensures f.op.None? ==> r.right == f.right && r.state == ExpOpOrClose
    ensures f.op.Some? ==> r.left == f.left && r.state == ExpClose
  {
    WithPick(f, Pick(f).(inner := Some(s))).(state := if f.op.None? then ExpOpOrClose else ExpClose)
  }

  /** The statement a call returns once its loop has ended (parse.go:315-318): the left
      slot alone, or the operator applied to both slots, with the letters of the slots. */
  function Finish(f: Frame): (r: Stmt)
    requires f.left.inner.Some? && (f.op.Some? ==> f.right.inner.Some?)
    ensures Atoms(r) == Atoms(f.left.inner.value) + (if f.op.Some? then Atoms(f.right.inner.value) else {})
  {
    if f.op.None? then Build(f.left) else BinaryStmt(Build(f.left), f.op.value, Build(f.right))
  }

  /** What a slot builds evaluates to its statement's value, flipped when the parity of
      the `!`s before it is odd; so `negate` negates that value. */
  lemma BuildEval(b: Builder, t: Truth)
    requires b.inner.Some?
    ensures Eval(Build(b), t) == (Eval(b.inner.value, t) != b.negated)
    ensures Eval(Build(Negate(b)), t) == !Eval(Build(b), t)
  {
  }

  /** What a call returns evaluates to its left slot's value, or to the operator applied to
      the values of both slots. */
  lemma FinishEval(f: Frame, t: Truth)
    requires f.left.inner.Some? && (f.op.Some? ==> f.right.inner.Some?)
    ensures Eval(Finish(f), t) == if f.op.None? then Eval(Build(f.left), t)
                                  else Apply(f.op.value, Eval(Build(f.left), t), Eval(Build(f.right), t))
  {
  }

  /** What one call returns: its statement, its occurrence mask, and the position after
      the last stream item it consumed. */
  datatype Sub = Sub(stmt: Stmt, atomics: Occurrences, next: nat)

  /** A well-formed stream and a position inside it that follows a lexeme. */
  predicate Consumable(items: seq<LexerResult>, pos: nat) {
    WellFormedStream(items) && pos <= |items| && (pos == 0 || items[pos - 1].Lexed?)
  }

  /** The frame agrees with the stream: a statement is expected exactly where the lexer was
      in `lexStatement`, and the slots the state relies on are filled. */
  predicate FrameOK(items: seq<LexerResult>, pos: nat, f: Frame)
    requires Consumable(items, pos)
  {
    && (f.state == ExpStmt <==> StateAt(LexStatement, items, pos) == LexStatement)
    && (f.op.Some? ==> f.left.inner.Some?)
    && (f.state == ExpOpOrClose ==> f.op.None? && f.left.inner.Some?)
    && (f.state == ExpClose ==> f.op.Some? && f.right.inner.Some?)
  }

  /** Items `lo`..`hi`-1 are all lexemes. */
  predicate AllLexed(items: seq<LexerResult>, lo: nat, hi: nat)
    requires hi <= |items|
  {
    forall q :: lo <= q < hi ==> items[q].Lexed?
  }

  /** A call that started at `start` stopped at `next`: it consumed only lexemes, the last
      of which ends a statement and is either the stream's last item or a `)`. */
  predicate Stopped(items: seq<LexerResult>, start: nat, next: nat) {
    && start <= next <= |items|
    && 0 < next
    && AllLexed(items, start, next)
    && items[next - 1].Lexed?
    && After(items[next - 1].l.t) == LexOperator
    && (next == |items| || items[next - 1].l.t == LTCloseParen)
  }

  /** A parse error is the lexer's own trailing error or a chained operator. */
  predicate ErrorOK(items: seq<LexerResult>, e: ParseError) {
    && (e.LexFailure? ==> EndsWithError(items, e.err))
    && (e.ChainedOperator? ==> e.l.t == LTOperator)
  }

  /** What a well-formed stream says about its lexeme at `pos`. */
  lemma ItemAt(items: seq<LexerResult>, pos: nat)
    requires Consumable(items, pos) && pos < |items| && items[pos].Lexed?
    ensures LexemeOK(items[pos].l) && Accepts(StateAt(LexStatement, items, pos), items[pos].l.t)
    ensures Consumable(items, pos + 1) && StateAt(LexStatement, items, pos + 1) == After(items[pos].l.t)
    ensures items[pos].l.t == LTStatement ==> IsLetter(items[pos].l.v)
    ensures items[pos].l.t == LTOperator ==> IsOpSym(items[pos].l.v)
  {
    assert Accepts(StateAt(LexStatement, items, pos), items[pos].l.t);
  }

  /** A well-formed stream that ends cleanly ends after a statement. */
  lemma EndAt(items: seq<LexerResult>)
    requires Consumable(items, |items|)
    ensures StateAt(LexStatement, items, |items|) == LexOperator
  {
  }

  lemma StoppedEarlier(items: seq<LexerResult>, a: nat, b: nat, next: nat)
    requires a <= b <= |items| && AllLexed(items, a, b) && Stopped(items, b, next)
    ensures Stopped(items, a, next)
  {
  }

  /** The loop of `parseRecursive` (parse.go:257-318), from position `pos` in frame `f`:
      stop at the end of the stream, pass a lexer error up, and otherwise handle the next
      lexeme according to the local state. */
  function ParseLoop(items: seq<LexerResult>, pos: nat, f: Frame): (r: Result<Sub, ParseError>)
    requires Consumable(items, pos) && FrameOK(items, pos, f)
    decreases |items| - pos, 2
    ensures r.Success? ==> Stopped(items, pos, r.value.next)
    ensures r.Failure? ==> ErrorOK(items, r.error)
  {
    if pos == |items| then
      // The channel is closed: the loop ends as on a closing parenthesis.
      EndAt(items);
      Success(Sub(Finish(f), f.atomics, pos))
    else if items[pos].LexFailed? then
      Failure(LexFailure(items[pos].err))
    else
      match f.state
      case ExpStmt => ExpectStmt(items, pos, f)
      case ExpOpOrClose => ExpectOpOrClose(items, pos, f)
      case ExpClose =>
        if items[pos].l.t != LTCloseParen then Failure(ChainedOperator(items[pos].l))
        else Success(Sub(Finish(f), f.atomics, pos + 1))
  }

  /** The `expStmt` case (parse.go:264-293): a constant or a letter fills the picked slot,
      `!` flips its parity, and `(` parses a nested group into it. */
  function ExpectStmt(items: seq<LexerResult>, pos: nat, f: Frame): (r: Result<Sub, ParseError>)
    requires Consumable(items, pos) && FrameOK(items, pos, f)
    requires pos < |items| && items[pos].Lexed? && f.state == ExpStmt
    decreases |items| - pos, 1
    ensures r.Success? ==> Stopped(items, pos, r.value.next)
    ensures r.Failure? ==> ErrorOK(items, r.error)
  {
    ItemAt(items, pos);
    var l := items[pos].l;
    match l.t
    case LTFalse => ParseLoop(items, pos + 1, Fill(f, FalseStmt))
    case LTTrue => ParseLoop(items, pos + 1, Fill(f, TrueStmt))
    case LTNegate => ParseLoop(items, pos + 1, WithPick(f, Negate(Pick(f))))
    case LTOpenParen =>
      (match ParseRecursive(items, pos + 1)
       case Failure(e) => Failure(e)
       case Success(sub) =>
         ParseLoop(items, sub.next, Fill(f.(atomics := f.atomics + sub.atomics), sub.stmt)))
    case LTStatement =>
      ParseLoop(items, pos + 1, Fill(f.(atomics := f.atomics + {AlphaToIdx(l.v)}), AtomicStmt(l.v)))
  }

  /** The `expOpOrClose` case (parse.go:294-305): an operator is recorded and a right
      operand expected; a `)` ends this call. */
  function ExpectOpOrClose(items: seq<LexerResult>, pos: nat, f: Frame): (r: Result<Sub, ParseError>)
    requires Consumable(items, pos) && FrameOK(items, pos, f)
    requires pos < |items| && items[pos].Lexed? && f.state == ExpOpOrClose
    decreases |items| - pos, 1
    ensures r.Success? ==> Stopped(items, pos, r.value.next)
    ensures r.Failure? ==> ErrorOK(items, r.error)
  {
    ItemAt(items, pos);
    var l := items[pos].l;
    if l.t == LTOperator then ParseLoop(items, pos + 1, f.(op := Some(ByteToOp(l.v)), state := ExpStmt))
    else Success(Sub(Finish(f), f.atomics, pos + 1))
  }

  /** `parseRecursive` (parse.go:230-319): one grouping level, from just after its `(`
      (or from the start of the stream). */
  function ParseRecursive(items: seq<LexerResult>, pos: nat): (r: Result<Sub, ParseError>)
    requires Consumable(items, pos) && StateAt(LexStatement, items, pos) == LexStatement
    decreases |items| - pos, 3
    ensures r.Success? ==> pos < r.value.next && Stopped(items, pos, r.value.next)
    ensures r.Failure? ==> ErrorOK(items, r.error)
  {
    ParseLoop(items, pos, StartFrame)
  }

  /** A parsed statement with the truth set built from its occurrence mask. */
  datatype Parsed = Parsed(stmt: Stmt, truth: Truth)

  /** `Parse` (parse.go:206-211): lex, parse the whole stream as one grouping level, and
      build the truth set, in which bit `s` of `Val` is the value of `Names[s]`
      (parse.go:40-42). */
  function Parse(input: string): (r: Result<Parsed, ParseError>)
    ensures r.Success? ==> r.value.truth.val == 0 && Descending(r.value.truth.names) && Dense(r.value.truth)
    ensures r.Failure? ==> ErrorOK(Lex(input), r.error)
  {
    var items := Lex(input);
    match ParseRecursive(items, 0)
    case Failure(e) => Failure(e)
    case Success(sub) =>
      NewTruthDense(sub.atomics);
      Success(Parsed(sub.stmt, NewTruth(sub.atomics)))
  }
}
