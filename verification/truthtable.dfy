/** The logic of `RenderTT` (truthtable.go:60-86) without its drawing: a truth table needs
    at least one letter, and then has one row per value of `Val`, counting up from the
    value it was given, whose output is the statement evaluated under that value. */
module TruthTable {
  import opened Results
  import opened Letters
  import opened Truths
  import opened Stmts
  import opened Parser

  datatype TableError = NoAtomics   // "cannot make a truth table with no atomics"

  /** `1 << len(truth.Names)` on Go's 64-bit `int`: 2^k below 63, the negative minimum at 63
      and 0 above it, so from 63 names on the loop runs no row. */
  function RowCount(k: nat): nat {
    if k < 63 then Pow2(k) else 0
  }

  /** `Val` after `i` increments from `v`: `truth.Val++` on a `uint64` wraps around. */
  function Step(v: U64, i: nat): U64 {
    (v + i) % U64Size
  }

  lemma StepSucc(v: U64, i: nat)
    ensures Step(Step(v, i), 1) == Step(v, i + 1)
  {
  }

  /** The output column of the table for `stmt` starting from the truth set `t`: an error
      when `t` names no letter, and otherwise row `i` holds `stmt`'s value once `Val` has
      been incremented `i` times. */
  method TruthColumn(stmt: Stmt, t: Truth) returns (r: Result<seq<bool>, TableError>)
    ensures r.Failure? <==> |t.names| == 0
    ensures r.Success? ==> |r.value| == RowCount(|t.names|)
    ensures r.Success? ==> forall i :: 0 <= i < |r.value| ==> r.value[i] == Eval(stmt, t.(val := Step(t.val, i)))
  {
    if |t.names| == 0 {
      return Failure(NoAtomics);
    }
    var n := RowCount(|t.names|);
    var column := [];
    var cur := t;
    var i := 0;
    while i < n
      invariant 0 <= i <= n
      invariant cur == t.(val := Step(t.val, i))
      invariant |column| == i
      invariant forall j :: 0 <= j < i ==> column[j] == Eval(stmt, t.(val := Step(t.val, j)))
    {
      column := column + [Eval(stmt, cur)];
      StepSucc(t.val, i);
      cur := cur.(val := Step(cur.val, 1));
      i := i + 1;
    }
    return Success(column);
  }

  // ---------------------------------------------------------------------------
  // The rows of a table built from `newTruth`

  /** The value of `Val` that gives `Names[s]` the truth value `a[s]` for every `s`. */
  function Encode(a: seq<bool>): nat {
    if |a| == 0 then 0 else (if a[0] then 1 else 0) + 2 * Encode(a[1..])
  }

  lemma {:induction false} EncodeBits(a: seq<bool>)
    ensures Encode(a) < Pow2(|a|)
    ensures forall s :: 0 <= s < |a| ==> Bit(Encode(a), s) == a[s]
  {
    if |a| > 0 {
      EncodeBits(a[1..]);
      var e := Encode(a);
      assert e % 2 == (if a[0] then 1 else 0) && e / 2 == Encode(a[1..]);
      forall s | 0 <= s < |a| ensures Bit(e, s) == a[s] {
        if s > 0 {
          assert a[1..][s - 1] == a[s];
        }
      }
    }
  }

  /** Two different rows differ in the value of some name. */
  lemma {:induction false} RowsDiffer(i: nat, j: nat, k: nat)
    requires i < Pow2(k) && j < Pow2(k) && i != j
    ensures exists s :: 0 <= s < k && Bit(i, s) != Bit(j, s)
  {
    if i % 2 != j % 2 {
      assert Bit(i, 0) != Bit(j, 0);
    } else {
      RowsDiffer(i / 2, j / 2, k - 1);
      var s :| 0 <= s < k - 1 && Bit(i / 2, s) != Bit(j / 2, s);
      assert Bit(i, s + 1) != Bit(j, s + 1);
    }
  }

  lemma Pow2Times256(n: nat)
    ensures Pow2(n + 8) == 256 * Pow2(n)
  {
    assert Pow2(n + 8) == 2 * Pow2(n + 7) == 4 * Pow2(n + 6) == 8 * Pow2(n + 5) == 16 * Pow2(n + 4);
    assert Pow2(n + 4) == 2 * Pow2(n + 3) == 4 * Pow2(n + 2) == 8 * Pow2(n + 1) == 16 * Pow2(n);
  }

  lemma {:induction false} Pow2Monotone(a: nat, b: nat)
    requires a <= b
    decreases b - a
    ensures Pow2(a) <= Pow2(b)
  {
    if a < b {
      Pow2Monotone(a + 1, b);
    }
  }

  /** No table built from `newTruth` has more rows than a `uint64` has values. */
  lemma Pow2Bound(k: nat)
    requires k <= 52
    ensures Pow2(k) < U64Size
  {
    Pow2Times256(0);
    Pow2Times256(8);
    Pow2Times256(16);
    Pow2Times256(24);
    Pow2Times256(32);
    Pow2Times256(40);
    Pow2Times256(48);
    Pow2Times256(56);
    Pow2Monotone(k, 56);
  }

  /** A row of the table for the truth set `t`. */
  function Row(t: Truth, i: nat): Truth {
    t.(val := Step(t.val, i))
  }

  /** From `Val` = 0, row `i` of a table of at most 52 names is `Val` = `i` itself. */
  lemma RowVal(t: Truth, i: nat)
    requires t.val == 0 && |t.names| <= 52 && i < Pow2(|t.names|)
    ensures Row(t, i).val == i
  {
    Pow2Bound(|t.names|);
  }

  /** Every assignment `a` of truth values to the names of a truth set built by `newTruth`
      is a row of its table: in row `Encode(a)`, each `Names[s]` reads `a[s]`. */
  lemma EveryAssignmentIsARow(t: Truth, a: seq<bool>)
    requires t.val == 0 && Dense(t) && |a| == |t.names|
    ensures Encode(a) < RowCount(|a|)
    ensures forall s :: 0 <= s < |a| ==> Get(Row(t, Encode(a)), t.names[s]) == a[s]
  {
    EncodeBits(a);
    RowVal(t, Encode(a));
    forall s | 0 <= s < |a|
      ensures Get(Row(t, Encode(a)), t.names[s]) == a[s]
    {
      GetReadsOwnBit(t, Encode(a), s);
    }
  }

  /** Different rows of the table of such a truth set assign some name differently, so no
      assignment is listed twice. */
  lemma RowsAreDistinct(t: Truth, i: nat, j: nat)
    requires t.val == 0 && Dense(t)
    requires i < RowCount(|t.names|) && j < RowCount(|t.names|) && i != j
    ensures exists s :: 0 <= s < |t.names| && Get(Row(t, i), t.names[s]) != Get(Row(t, j), t.names[s])
  {
    var k := |t.names|;
    RowVal(t, i);
    RowVal(t, j);
    RowsDiffer(i, j, k);
    var s :| 0 <= s < k && Bit(i, s) != Bit(j, s);
    GetReadsOwnBit(t, i, s);
    GetReadsOwnBit(t, j, s);
  }

  /** The table of a parsed statement lists every assignment of its names. */
  lemma ParsedAssignmentsAreRows(input: string, a: seq<bool>)
    requires Parse(input).Success?
    requires |a| == |Parse(input).value.truth.names|
    ensures Encode(a) < RowCount(|a|)
    ensures var t := Parse(input).value.truth;
            forall s :: 0 <= s < |a| ==> Get(Row(t, Encode(a)), t.names[s]) == a[s]
  {
    EveryAssignmentIsARow(Parse(input).value.truth, a);
  }

  /** The table of a parsed statement lists no assignment twice. */
  lemma ParsedRowsDistinct(input: string, i: nat, j: nat)
    requires Parse(input).Success?
    requires var k := |Parse(input).value.truth.names|; i < RowCount(k) && j < RowCount(k) && i != j
    ensures var t := Parse(input).value.truth;
            exists s :: 0 <= s < |t.names| && Get(Row(t, i), t.names[s]) != Get(Row(t, j), t.names[s])
  {
    RowsAreDistinct(Parse(input).value.truth, i, j);
  }
}
