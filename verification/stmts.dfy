/** Statements (parse.go:93-204): the closed set of node kinds, their evaluation under a
    set of truth values, and their canonical text. */
module Stmts {
  import opened Letters
  import opened Lexer
  import opened Truths

  /** The five binary operators. */
  datatype Op = And | Or | Xor | Cond | Bicond

  /** The symbol each operator is written with (lex.go:12-16). */
  function OpSymbol(op: Op): (c: char)
    ensures IsOpSym(c)
  {
    match op
    case And => AndSym
    case Or => OrSym
    case Xor => XorSym
    case Cond => CondSym
    case Bicond => BicondSym
  }

  /** `byteToOp`: the operator written with symbol `b`. Only operator symbols reach it; any
      other byte is the panic at parse.go:202. */
  function ByteToOp(b: char): (op: Op)
    requires IsOpSym(b)
    ensures OpSymbol(op) == b
  {
    if b == AndSym then And
    else if b == OrSym then Or
    else if b == XorSym then Xor
    else if b == CondSym then Cond
    else Bicond
  }

  /** Symbol and operator determine each other. */
  lemma OpSymbolBijection(op: Op, op': Op)
    ensures ByteToOp(OpSymbol(op)) == op
    ensures OpSymbol(op) == OpSymbol(op') ==> op == op'
  {
  }

  /** The functions `and`, `or`, `xor`, `cond`, `bicond` (parse.go:167-185). */
  function Apply(op: Op, left: bool, right: bool): (r: bool)
    ensures op == And ==> (r <==> left && right)
    ensures op == Or ==> (r <==> left || right)
    ensures op == Xor ==> (r <==> left != right)
    ensures op == Cond ==> (!r <==> left && !right)
    ensures op == Bicond ==> (r <==> left == right)
  {
    match op
    case And => left && right
    case Or => left || right
    case Xor => (left && !right) || (!left && right)
    case Cond => !left || right
    case Bicond => left == right
  }

  /** `falseStmt`, `trueStmt`, `negatedStmt`, `atomicStmt` and `binaryStmt`. A binary
      statement stores its operator; the Go value also stores the function and the
      padded symbol `" & "`, both determined by the operator. */
  datatype Stmt =
    | FalseStmt
    | TrueStmt
    | NegatedStmt(inner: Stmt)
    | AtomicStmt(name: Letter)
    | BinaryStmt(left: Stmt, op: Op, right: Stmt)

  /** `Eval`: constants are themselves, a negation is the logical not of its child, an atom
      reads its truth value, and a binary statement always evaluates both operands. */
  function Eval(s: Stmt, t: Truth): bool {
    match s
    case FalseStmt => false
    case TrueStmt => true
    case NegatedStmt(x) => !Eval(x, t)
    case AtomicStmt(c) => Get(t, c)
    case BinaryStmt(l, op, r) => Apply(op, Eval(l, t), Eval(r, t))
  }

  /** `String`: constants as `0`/`1`, an atom as its letter, a negation as `!` before its
      child, a binary statement as `left sym right` with single spaces around the symbol;
      children are parenthesised exactly when they are binary. */
  function Render(s: Stmt): string
    decreases s, 0
  {
    match s
    case FalseStmt => "0"
    case TrueStmt => "1"
    case NegatedStmt(x) => [NegateSym] + SurroundIfBinary(x)
    case AtomicStmt(c) => [c]
    case BinaryStmt(l, op, r) => SurroundIfBinary(l) + " " + [OpSymbol(op)] + " " + SurroundIfBinary(r)
  }

  /** `surroundIfBinary`. */
  function SurroundIfBinary(s: Stmt): string
    decreases s, 1
  {
    if s.BinaryStmt? then "(" + Render(s) + ")" else Render(s)
  }

  /** The letters a statement mentions. */
  function Atoms(s: Stmt): set<Letter> {
    match s
    case FalseStmt => {}
    case TrueStmt => {}
    case NegatedStmt(x) => Atoms(x)
    case AtomicStmt(c) => {c}
    case BinaryStmt(l, _, r) => Atoms(l) + Atoms(r)
  }

  /** Evaluation reads only the truth values of the letters the statement mentions. */
  lemma {:induction false} EvalReadsOnlyAtoms(s: Stmt, t: Truth, t': Truth)
    requires forall c :: c in Atoms(s) ==> Get(t, c) == Get(t', c)
    ensures Eval(s, t) == Eval(s, t')
  {
    match s
    case FalseStmt =>
    case TrueStmt =>
    case NegatedStmt(x) => EvalReadsOnlyAtoms(x, t, t');
    case AtomicStmt(c) =>
    case BinaryStmt(l, _, r) =>
      EvalReadsOnlyAtoms(l, t, t');
      EvalReadsOnlyAtoms(r, t, t');
  }
}
