/** Parsing the text of a statement. `Parse(String(s))` succeeds for every statement `s` and
    returns `Canon(s)`: the same tree except that every run of negations is reduced to its
    parity (the builder keeps one flag per slot, parse.go:214-228) and parentheses, which
    only ever surround binary statements, leave no node. `Canon(s)` evaluates like `s`
    under every truth set. */
module RoundTrip {
  import opened Results
  import opened Letters
  import opened Lexer
  import opened Truths
  import opened Stmts
  import opened Parser
  import opened Rendering

  // ---------------------------------------------------------------------------
  // What the parser builds from the text of a statement

  /** The negations in front of `s` are odd in number. */
  function OddNegations(s: Stmt): bool {
    if s.NegatedStmt? then !OddNegations(s.inner) else false
  }

  /** `s` without its leading negations, canonical below. */
  function Core(s: Stmt): Stmt
    decreases s, 0
  {
    match s
    case NegatedStmt(x) => Core(x)
    case BinaryStmt(l, op, r) => BinaryStmt(Canon(l), op, Canon(r))
    case FalseStmt => s
    case TrueStmt => s
    case AtomicStmt(_) => s
  }

  /** The statement the parser builds from the text of `s`. */
  function Canon(s: Stmt): Stmt
    decreases s, 1
  {
    if OddNegations(s) then NegatedStmt(Core(s)) else Core(s)
  }

  /** The occurrence mask of the letters of `s`. */
  function Indices(s: Stmt): Occurrences {
    match s
    case FalseStmt => {}
    case TrueStmt => {}
    case NegatedStmt(x) => Indices(x)
    case AtomicStmt(c) => {AlphaToIdx(c)}
    case BinaryStmt(l, _, r) => Indices(l) + Indices(r)
  }

  lemma {:induction false} IndicesAtoms(s: Stmt)
    ensures forall c: Letter :: AlphaToIdx(c) in Indices(s) <==> c in Atoms(s)
  {
    match s
    case FalseStmt =>
    case TrueStmt =>
    case NegatedStmt(x) => IndicesAtoms(x);
    case AtomicStmt(d) =>
      forall c: Letter ensures AlphaToIdx(c) in Indices(s) <==> c in Atoms(s) {
        LetterIndexBijection(c, d, AlphaToIdx(c));
      }
    case BinaryStmt(l, _, r) =>
      IndicesAtoms(l);
      IndicesAtoms(r);
  }

  // ---------------------------------------------------------------------------
  // The parser on such streams

  /** The frame after the text of `x` has filled the picked slot: the slot holds `x`'s core,
      its parity is flipped by `x`'s leading negations, and `x`'s letters are recorded. */
  function Filled(f: Frame, x: Stmt): Frame {
    WithPick(f, Builder(Some(Core(x)), Pick(f).negated != OddNegations(x)))
      .(state := if f.op.None? then ExpOpOrClose else ExpClose, atomics := f.atomics + Indices(x))
  }

  /** Where the text of `x` ends, the frame that `Filled` describes fits the stream. */
  lemma SlotEnd(items: seq<LexerResult>, pos: nat, f: Frame, x: Stmt)
    requires Consumable(items, pos) && FrameOK(items, pos, f) && f.state == ExpStmt
    requires Spells(items, pos, CompactSurround(x))
    ensures Consumable(items, pos + |CompactSurround(x)|)
    ensures FrameOK(items, pos + |CompactSurround(x)|, Filled(f, x))
  {
    SurroundFragment(x);
    SpellsEnd(items, pos, CompactSurround(x));
  }

  /** Reading the text of `x` where a statement is expected fills the picked slot. */
  lemma {:induction false} SlotRoundTrip(items: seq<LexerResult>, pos: nat, f: Frame, x: Stmt)
    requires Consumable(items, pos) && FrameOK(items, pos, f) && f.state == ExpStmt
    requires Spells(items, pos, CompactSurround(x))
    decreases x, 3
    ensures Consumable(items, pos + |CompactSurround(x)|)
    ensures FrameOK(items, pos + |CompactSurround(x)|, Filled(f, x))
    ensures ParseLoop(items, pos, f) == ParseLoop(items, pos + |CompactSurround(x)|, Filled(f, x))
  {
    SlotEnd(items, pos, f, x);
    match x
    case NegatedStmt(_) => SlotNegated(items, pos, f, x);
    case BinaryStmt(_, _, _) => SlotBinary(items, pos, f, x);
    case FalseStmt => SlotSingle(items, pos, f, x);
    case TrueStmt => SlotSingle(items, pos, f, x);
    case AtomicStmt(_) => SlotSingle(items, pos, f, x);
  }

  /** A constant or a letter: one lexeme. */
  lemma SlotSingle(items: seq<LexerResult>, pos: nat, f: Frame, x: Stmt)
    requires x.FalseStmt? || x.TrueStmt? || x.AtomicStmt?
    requires Consumable(items, pos) && FrameOK(items, pos, f) && f.state == ExpStmt
    requires Spells(items, pos, CompactSurround(x))
    ensures Consumable(items, pos + 1) && FrameOK(items, pos + 1, Filled(f, x))
    ensures ParseLoop(items, pos, f) == ParseLoop(items, pos + 1, Filled(f, x))
  {
    var c := match x case FalseStmt => '0' case TrueStmt => '1' case AtomicStmt(a) => a;
    assert CompactSurround(x) == Compact(x) == [c];
    SlotEnd(items, pos, f, x);
    SpellsAt(items, pos, [c], 0);
    ItemAt(items, pos);
    assert ParseLoop(items, pos, f) == ExpectStmt(items, pos, f);
    if !x.AtomicStmt? {
      assert f.atomics + Indices(x) == f.atomics;
    }
  }

  /** A negation: one `!`, then the text of the negated statement in the same slot. */
  lemma {:induction false} SlotNegated(items: seq<LexerResult>, pos: nat, f: Frame, x: Stmt)
    requires x.NegatedStmt?
    requires Consumable(items, pos) && FrameOK(items, pos, f) && f.state == ExpStmt
    requires Spells(items, pos, CompactSurround(x))
    decreases x, 2
    ensures Consumable(items, pos + |CompactSurround(x)|)
    ensures FrameOK(items, pos + |CompactSurround(x)|, Filled(f, x))
    ensures ParseLoop(items, pos, f) == ParseLoop(items, pos + |CompactSurround(x)|, Filled(f, x))
  {
    SlotEnd(items, pos, f, x);
    var y := x.inner;
    assert CompactSurround(x) == Compact(x) == [NegateSym] + CompactSurround(y);
    SpellsSplit(items, pos, [NegateSym], CompactSurround(y));
    SpellsAt(items, pos, [NegateSym], 0);
    ItemAt(items, pos);
    var f1 := WithPick(f, Negate(Pick(f)));
    assert ParseLoop(items, pos, f) == ExpectStmt(items, pos, f);
    assert ExpectStmt(items, pos, f) == ParseLoop(items, pos + 1, f1);
    SlotRoundTrip(items, pos + 1, f1, y);
    assert Filled(f1, y) == Filled(f, x);
  }

  /** A binary statement: `(`, its group, `)`. */
  lemma {:induction false} SlotBinary(items: seq<LexerResult>, pos: nat, f: Frame, x: Stmt)
    requires x.BinaryStmt?
    requires Consumable(items, pos) && FrameOK(items, pos, f) && f.state == ExpStmt
    requires Spells(items, pos, CompactSurround(x))
    decreases x, 2
    ensures Consumable(items, pos + |CompactSurround(x)|)
    ensures FrameOK(items, pos + |CompactSurround(x)|, Filled(f, x))
    ensures ParseLoop(items, pos, f) == ParseLoop(items, pos + |CompactSurround(x)|, Filled(f, x))
  {
    SlotEnd(items, pos, f, x);
    var c := Compact(x);
    assert CompactSurround(x) == "(" + c + ")";
    SpellsSplit(items, pos, "(" + c, ")");
    SpellsSplit(items, pos, "(", c);
    SpellsAt(items, pos, "(", 0);
    SpellsAt(items, pos + |"(" + c|, ")", 0);
    ItemAt(items, pos);
    GroupRoundTrip(items, pos + 1, x);
    assert ParseLoop(items, pos, f) == ExpectStmt(items, pos, f);
  }

  /** The frame after the left operand and the operator of the binary statement `x`. */
  function LeftFrame(x: Stmt): Frame
    requires x.BinaryStmt?
  {
    Filled(StartFrame, x.left).(op := Some(x.op), state := ExpStmt)
  }

  /** The left operand of a binary statement fills the left slot; its operator is recorded. */
  lemma {:induction false} GroupLeft(items: seq<LexerResult>, p: nat, x: Stmt)
    requires x.BinaryStmt?
    requires Consumable(items, p) && StateAt(LexStatement, items, p) == LexStatement
    requires Spells(items, p, Compact(x))
    decreases x, 0
    ensures var p1 := p + |CompactSurround(x.left)| + 1;
            && Consumable(items, p1) && FrameOK(items, p1, LeftFrame(x))
            && Spells(items, p1, CompactSurround(x.right))
            && p1 + |CompactSurround(x.right)| == p + |Compact(x)|
            && ParseRecursive(items, p) == ParseLoop(items, p1, LeftFrame(x))
  {
    var l, op, r := x.left, x.op, x.right;
    var sym := OpSymbol(op);
    OpSymbolBijection(op, op);
    assert Compact(x) == CompactSurround(l) + [sym] + CompactSurround(r);
    SpellsSplit(items, p, CompactSurround(l) + [sym], CompactSurround(r));
    SpellsSplit(items, p, CompactSurround(l), [sym]);
    var p1 := p + |CompactSurround(l)|;
    SpellsAt(items, p1, [sym], 0);
    assert ParseRecursive(items, p) == ParseLoop(items, p, StartFrame);
    SlotRoundTrip(items, p, StartFrame, l);
    var g := Filled(StartFrame, l);
    ItemAt(items, p1);
    assert ParseLoop(items, p1, g) == ExpectOpOrClose(items, p1, g);
    assert ExpectOpOrClose(items, p1, g) == ParseLoop(items, p1 + 1, LeftFrame(x));
  }

  /** Reading the text of a binary statement as one grouping level, up to its `)` or the
      end of the stream, returns its canonical form and its letters. */
  lemma {:induction false} GroupRoundTrip(items: seq<LexerResult>, p: nat, x: Stmt)
    requires x.BinaryStmt?
    requires Consumable(items, p) && StateAt(LexStatement, items, p) == LexStatement
    requires Spells(items, p, Compact(x))
    requires p + |Compact(x)| == |items| || items[p + |Compact(x)|] == TokenOf(')')
    decreases x, 1
    ensures ParseRecursive(items, p)
            == Success(Sub(Canon(x), Indices(x), if p + |Compact(x)| == |items| then |items| else p + |Compact(x)| + 1))
  {
    var l, op, r := x.left, x.op, x.right;
    var e := p + |Compact(x)|;
    GroupLeft(items, p, x);
    var p1 := p + |CompactSurround(l)| + 1;
    SlotRoundTrip(items, p1, LeftFrame(x), r);
    var h := Filled(LeftFrame(x), r);
    assert h.op == Some(op);
    assert h.left == Builder(Some(Core(l)), OddNegations(l));
    assert h.right == Builder(Some(Core(r)), OddNegations(r));
    assert Canon(x) == BinaryStmt(Canon(l), op, Canon(r));
    assert Finish(h) == Canon(x);
    assert h.atomics == Indices(x);
    if e < |items| {
      ItemAt(items, e);
    }
  }

  /** Reading the whole text of any statement. */
  lemma TopRoundTrip(items: seq<LexerResult>, s: Stmt)
    requires WellFormedStream(items)
    requires |items| == |Compact(s)| && Spells(items, 0, Compact(s))
    ensures ParseRecursive(items, 0) == Success(Sub(Canon(s), Indices(s), |items|))
  {
    if s.BinaryStmt? {
      GroupRoundTrip(items, 0, s);
    } else {
      assert CompactSurround(s) == Compact(s);
      assert ParseRecursive(items, 0) == ParseLoop(items, 0, StartFrame);
      SlotRoundTrip(items, 0, StartFrame, s);
      assert {} + Indices(s) == Indices(s);
    }
  }

  /** `Parse` inverts `String` up to canonical form: the text of any statement parses, to
      its canonical form, with a truth set over exactly its letters. */
  lemma ParseRender(s: Stmt)
    ensures Parse(Render(s)) == Success(Parsed(Canon(s), NewTruth(Indices(s))))
  {
    RenderWellFormed(s);
    LexSpells(Render(s));
    TopRoundTrip(Lex(Render(s)), s);
  }

  // ---------------------------------------------------------------------------
  // Canonical forms

  /** The core of a statement evaluates like the statement, up to its parity, and the
      canonical form evaluates exactly like the statement. */
  lemma {:induction false} CanonEval(s: Stmt, t: Truth)
    decreases s
    ensures Eval(Core(s), t) == (Eval(s, t) != OddNegations(s))
    ensures Eval(Canon(s), t) == Eval(s, t)
  {
    match s
    case FalseStmt =>
    case TrueStmt =>
    case AtomicStmt(_) =>
    case NegatedStmt(x) => CanonEval(x, t);
    case BinaryStmt(l, _, r) =>
      CanonEval(l, t);
      CanonEval(r, t);
  }

  /** The semantic round trip: the statement parsed from the text of `s` evaluates like
      `s` under every truth set. */
  lemma ParseRenderEval(s: Stmt, t: Truth)
    ensures Parse(Render(s)).Success?
    ensures Eval(Parse(Render(s)).value.stmt, t) == Eval(s, t)
  {
    ParseRender(s);
    CanonEval(s, t);
  }

  /** Canonical forms are fixed points, and keep the statement's letters. */
  lemma {:induction false} CanonIdempotent(s: Stmt)
    decreases s
    ensures !Core(s).NegatedStmt? && Core(Core(s)) == Core(s)
    ensures Canon(Canon(s)) == Canon(s)
    ensures Indices(Core(s)) == Indices(s) && Indices(Canon(s)) == Indices(s)
  {
    match s
    case FalseStmt =>
    case TrueStmt =>
    case AtomicStmt(_) =>
    case NegatedStmt(x) => CanonIdempotent(x);
    case BinaryStmt(l, _, r) =>
      CanonIdempotent(l);
      CanonIdempotent(r);
  }

  /** Parsing the text of a parsed text changes nothing more: a statement that is already
      in canonical form comes back unchanged. */
  lemma ParseRenderStable(s: Stmt)
    ensures Parse(Render(Canon(s))) == Parse(Render(s))
  {
    ParseRender(s);
    ParseRender(Canon(s));
    CanonIdempotent(s);
  }

  /** The truth set of a parsed text names exactly the statement's letters. */
  lemma ParseRenderNames(s: Stmt)
    ensures Parse(Render(s)).Success?
    ensures forall c: Letter :: c in Parse(Render(s)).value.truth.names <==> c in Atoms(s)
  {
    ParseRender(s);
    IndicesAtoms(s);
    forall c: Letter
      ensures c in NewTruth(Indices(s)).names <==> c in Atoms(s)
    {
      NewTruthNames(Indices(s), c);
    }
  }
}
