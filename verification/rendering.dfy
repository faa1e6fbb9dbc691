/** The text `String` gives a statement, as the lexer sees it: without the two spaces around
    each operator. Every such text is in the language the lexer accepts. */
module Rendering {
  import opened Letters
  import opened Lexer
  import opened Stmts

  /** `Render` with the spaces around operators left out. */
  function Compact(s: Stmt): string
    decreases s, 0
  {
    match s
    case FalseStmt => "0"
    case TrueStmt => "1"
    case NegatedStmt(x) => [NegateSym] + CompactSurround(x)
    case AtomicStmt(c) => [c]
    case BinaryStmt(l, op, r) => CompactSurround(l) + [OpSymbol(op)] + CompactSurround(r)
  }

  /** `SurroundIfBinary` with the spaces around operators left out. */
  function CompactSurround(s: Stmt): string
    decreases s, 1
  {
    if s.BinaryStmt? then "(" + Compact(s) + ")" else Compact(s)
  }

  lemma RemoveAllWSChar(c: char)
    ensures RemoveAllWS([c]) == if IsSpace(c) then [] else [c]
  {
    assert [c][1..] == [];
  }

  /** Whitespace removal turns the text of a statement into its compact text. */
  lemma {:induction false} RenderCompact(s: Stmt)
    decreases s, 0
    ensures RemoveAllWS(Render(s)) == Compact(s)
  {
    match s
    case FalseStmt => RemoveAllWSChar('0');
    case TrueStmt => RemoveAllWSChar('1');
    case AtomicStmt(c) => RemoveAllWSChar(c);
    case NegatedStmt(x) =>
      SurroundCompact(x);
      RemoveAllWSChar(NegateSym);
      RemoveAllWSAppend([NegateSym], SurroundIfBinary(x));
    case BinaryStmt(l, op, r) =>
      SurroundCompact(l);
      SurroundCompact(r);
      RemoveAllWSOperator(SurroundIfBinary(l), OpSymbol(op), SurroundIfBinary(r));
  }

  /** The spaces around an operator symbol disappear. */
  lemma RemoveAllWSOperator(a: string, c: char, b: string)
    requires !IsSpace(c)
    ensures RemoveAllWS(a + " " + [c] + " " + b) == RemoveAllWS(a) + [c] + RemoveAllWS(b)
  {
    RemoveAllWSChar(' ');
    RemoveAllWSChar(c);
    RemoveAllWSAppend(a, " ");
    RemoveAllWSAppend(a + " ", [c]);
    RemoveAllWSAppend(a + " " + [c], " ");
    RemoveAllWSAppend(a + " " + [c] + " ", b);
  }

  lemma {:induction false} SurroundCompact(s: Stmt)
    decreases s, 1
    ensures RemoveAllWS(SurroundIfBinary(s)) == CompactSurround(s)
  {
    RenderCompact(s);
    if s.BinaryStmt? {
      RemoveAllWSChar('(');
      RemoveAllWSChar(')');
      RemoveAllWSAppend("(", Render(s));
      RemoveAllWSAppend("(" + Render(s), ")");
    }
  }

  // ---------------------------------------------------------------------------
  // Compact texts are well formed

  /** No prefix closes more groups than it opens, and all groups are closed. */
  predicate Balanced(w: string) {
    (forall i :: 0 <= i <= |w| ==> Depth(w[..i]) >= 0) && Depth(w) == 0
  }

  /** A text that can stand wherever a statement is expected: it starts with a character that
      may start a statement, ends with one that may end it, is admissible throughout and is
      balanced. */
  predicate Fragment(w: string) {
    && |w| > 0
    && ValueStart(w[0])
    && ValueEnd(w[|w| - 1])
    && (forall i :: 0 < i < |w| ==> Admissible(w, i))
    && Balanced(w)
  }

  lemma FragmentWellFormed(w: string)
    requires Fragment(w)
    ensures WellFormed(w)
  {
  }

  /** Admissibility of a concatenation, given admissibility of its parts and at the seam. */
  lemma AdmissibleJoin(a: string, b: string)
    requires |a| > 0 && |b| > 0
    requires forall i :: 0 < i < |a| ==> Admissible(a, i)
    requires forall j :: 0 < j < |b| ==> Admissible(b, j)
    requires if ValueEnd(a[|a| - 1]) then CloseOrOp(b[0]) else ValueStart(b[0])
    ensures forall i :: 0 < i < |a + b| ==> Admissible(a + b, i)
  {
    var w := a + b;
    forall i | 0 < i < |w|
      ensures Admissible(w, i)
    {
      if i < |a| {
        assert w[i] == a[i] && w[i - 1] == a[i - 1];
        assert Admissible(a, i);
      } else if i == |a| {
        assert w[i] == b[0] && w[i - 1] == a[|a| - 1];
      } else {
        assert w[i] == b[i - |a|] && w[i - 1] == b[i - |a| - 1];
        assert Admissible(b, i - |a|);
      }
    }
  }

  /** Prefix depths of a concatenation. */
  lemma PrefixDepthJoin(a: string, b: string)
    requires forall i :: 0 <= i <= |a| ==> Depth(a[..i]) >= 0
    requires forall j :: 0 <= j <= |b| ==> Depth(a) + Depth(b[..j]) >= 0
    ensures forall i :: 0 <= i <= |a + b| ==> Depth((a + b)[..i]) >= 0
    ensures Depth(a + b) == Depth(a) + Depth(b)
  {
    DepthAppend(a, b);
    forall i | 0 <= i <= |a + b|
      ensures Depth((a + b)[..i]) >= 0
    {
      if i <= |a| {
        assert (a + b)[..i] == a[..i];
      } else {
        assert (a + b)[..i] == a + b[..i - |a|];
        DepthAppend(a, b[..i - |a|]);
        assert Depth(a) + Depth(b[..i - |a|]) >= 0;
      }
    }
  }

  lemma DepthOne(c: char)
    ensures Depth([c]) == Delta(c)
    ensures forall i :: 0 <= i <= 1 ==> Depth([c][..i]) == if i == 0 then 0 else Delta(c)
  {
    assert [c][1..] == [];
    assert [c][..0] == [] && [c][..1] == [c];
  }

  lemma FragmentAtom(c: char)
    requires c == '0' || c == '1' || IsLetter(c)
    ensures Fragment([c])
  {
    DepthOne(c);
  }

  lemma FragmentNegated(x: string)
    requires Fragment(x)
    ensures Fragment([NegateSym] + x)
  {
    DepthOne(NegateSym);
    AdmissibleJoin([NegateSym], x);
    PrefixDepthJoin([NegateSym], x);
  }

  lemma FragmentParen(x: string)
    requires Fragment(x)
    ensures Fragment("(" + x + ")")
  {
    DepthOne('(');
    DepthOne(')');
    AdmissibleJoin("(", x);
    PrefixDepthJoin("(", x);
    var a := "(" + x;
    assert a[|a| - 1] == x[|x| - 1];
    AdmissibleJoin(a, ")");
    PrefixDepthJoin(a, ")");
  }

  lemma FragmentBinary(x: string, c: char, y: string)
    requires Fragment(x) && Fragment(y) && IsOpSym(c)
    ensures Fragment(x + [c] + y)
  {
    DepthOne(c);
    AdmissibleJoin(x, [c]);
    PrefixDepthJoin(x, [c]);
    var a := x + [c];
    assert a[|a| - 1] == c;
    AdmissibleJoin(a, y);
    PrefixDepthJoin(a, y);
  }

  lemma {:induction false} CompactFragment(s: Stmt)
    decreases s, 0
    ensures Fragment(Compact(s))
  {
    match s
    case FalseStmt => FragmentAtom('0');
    case TrueStmt => FragmentAtom('1');
    case AtomicStmt(c) => FragmentAtom(c);
    case NegatedStmt(x) =>
      SurroundFragment(x);
      FragmentNegated(CompactSurround(x));
    case BinaryStmt(l, op, r) =>
      SurroundFragment(l);
      SurroundFragment(r);
      FragmentBinary(CompactSurround(l), OpSymbol(op), CompactSurround(r));
  }

  lemma {:induction false} SurroundFragment(s: Stmt)
    decreases s, 1
    ensures Fragment(CompactSurround(s))
  {
    CompactFragment(s);
    if s.BinaryStmt? {
      FragmentParen(Compact(s));
    }
  }

  /** The text of every statement is accepted by the lexer. */
  lemma RenderWellFormed(s: Stmt)
    ensures RemoveAllWS(Render(s)) == Compact(s)
    ensures WellFormed(RemoveAllWS(Render(s)))
    ensures NoError(Lex(Render(s)))
  {
    RenderCompact(s);
    CompactFragment(s);
    FragmentWellFormed(Compact(s));
    LexAccepts(Render(s));
  }
}
