/** Sets of truth values (parse.go, `Truth`, `newTruth`, `get`, `String`).

    The letters that occur in a statement are recorded in a 64-bit occurrence mask
    (bit i for canonical index i). `newTruth` turns the mask into a dense shift table:
    scanning the indices from 51 down to 0, the k occurring ones receive shifts 0..k-1, so
    shift 0 belongs to the canonically LARGEST occurring letter and `Names` lists the
    occurring letters in descending canonical order. Bit s of `Val` is then the truth
    value of `Names[s]`. */
module Truths {
  import opened Letters

  /** 2^64, the number of values of Go's `uint64`. */
  const U64Size: nat := 0x1_0000_0000_0000_0000

  /** Go's `uint64`. */
  type U64 = x: nat | x < U64Size

  /** A shift into `Val`; `newTruth` never hands out more than 52. */
  type Shift = s: nat | s < 52

  /** The `[52]byte` shift map, indexed by canonical index. */
  type ShiftTable = m: seq<Shift> | |m| == 52 witness seq(52, _ => 0)

  datatype Truth = Truth(val: U64, shiftMap: ShiftTable, names: seq<Letter>)

  function Pow2(n: nat): (r: nat)
    ensures r > 0
  {
    if n == 0 then 1 else 2 * Pow2(n - 1)
  }

  /** Bit `s` of `v`, i.e. `v & (1 << s) > 0`. */
  predicate Bit(v: nat, s: nat) {
    if s == 0 then v % 2 == 1 else Bit(v / 2, s - 1)
  }

  /** `Truth.get`: the value of statement `c` is the bit of `Val` at `c`'s shift. */
  function Get(t: Truth, c: Letter): bool {
    Bit(t.val, t.shiftMap[AlphaToIdx(c)])
  }

  // ---------------------------------------------------------------------------
  // The occurrence mask

  /** The `uint64` occurrence mask of parse.go is a bit set over the canonical indices; as
      every index is below 52, no bit is ever lost, and the mask is modelled as the set of
      its set bits: `m |= 1 << i` is `m + {i}`, `m & (1 << i) > 0` is `Has(m, i)`. */
  type Occurrences = set<Index>

  /** Bit `i` of the occurrence mask `m` is set. Quantifiers over the mask are stated with
      `Has`, so that they fire on bit tests and not on every membership in a set. */
  predicate Has(m: Occurrences, i: Index) {
    i in m
  }

  /** Number of set bits of `m` among the indices `lo`..51. */
  function CountFrom(m: Occurrences, lo: nat): (n: nat)
    decreases 52 - lo
    ensures lo <= 52 ==> n <= 52 - lo
  {
    if lo >= 52 then 0 else (if Has(m, lo) then 1 else 0) + CountFrom(m, lo + 1)
  }

  /** Letters in strictly descending canonical order (so also without repetition). */
  predicate Descending(names: seq<Letter>) {
    forall a, b :: 0 <= a < b < |names| ==> AlphaToIdx(names[a]) > AlphaToIdx(names[b])
  }

  // ---------------------------------------------------------------------------
  // newTruth (parse.go:73-91)

  /** What the loop of `newTruth` has built once it has looked at the indices above `i`. */
  predicate TableInv(m: Occurrences, i: int, shiftMap: ShiftTable, names: seq<Letter>)
    requires -1 <= i <= 51
  {
    && |names| == CountFrom(m, i + 1)
    && Descending(names)
    && (forall s :: 0 <= s < |names| ==>
          && i < AlphaToIdx(names[s])
          && Has(m, AlphaToIdx(names[s]))
          && shiftMap[AlphaToIdx(names[s])] == s)
    && (forall j: Index :: i < j && Has(m, j) ==> IdxToAlpha(j) in names)
    && (forall j: Index :: j <= i || !Has(m, j) ==> shiftMap[j] == 0)
  }

  lemma DescendingSnoc(names: seq<Letter>, c: Letter)
    requires Descending(names)
    requires forall s :: 0 <= s < |names| ==> AlphaToIdx(names[s]) > AlphaToIdx(c)
    ensures Descending(names + [c])
  {
    var ns := names + [c];
    forall a, b | 0 <= a < b < |ns| ensures AlphaToIdx(ns[a]) > AlphaToIdx(ns[b]) {
      assert ns[a] == names[a];
      if b < |names| {
        assert ns[b] == names[b];
      }
    }
  }

  /** The entry for a newly found index `i` keeps every name at its own shift. */
  lemma StepSetShifts(m: Occurrences, i: Index, shiftMap: ShiftTable, names: seq<Letter>)
    requires TableInv(m, i, shiftMap, names) && Has(m, i) && |names| < 52
    ensures forall s :: 0 <= s < |names + [IdxToAlpha(i)]| ==>
              var c := (names + [IdxToAlpha(i)])[s];
              i - 1 < AlphaToIdx(c) && Has(m, AlphaToIdx(c)) && shiftMap[i := |names|][AlphaToIdx(c)] == s
  {
    var ns := names + [IdxToAlpha(i)];
    forall s | 0 <= s < |ns|
      ensures i - 1 < AlphaToIdx(ns[s]) && Has(m, AlphaToIdx(ns[s])) && shiftMap[i := |names|][AlphaToIdx(ns[s])] == s
    {
      if s < |names| {
        assert ns[s] == names[s];
      }
    }
  }

  /** After the entry for `i`, every occurring index from `i` up is named. */
  lemma StepSetComplete(m: Occurrences, i: Index, shiftMap: ShiftTable, names: seq<Letter>)
    requires TableInv(m, i, shiftMap, names) && Has(m, i)
    ensures forall j: Index :: i - 1 < j && Has(m, j) ==> IdxToAlpha(j) in names + [IdxToAlpha(i)]
  {
    var ns := names + [IdxToAlpha(i)];
    forall j: Index | i - 1 < j && Has(m, j)
      ensures IdxToAlpha(j) in ns
    {
      if j == i {
        assert ns[|names|] == IdxToAlpha(i);
      } else {
        assert IdxToAlpha(j) in names;
      }
    }
  }

  lemma TableInvStepSet(m: Occurrences, i: int, shiftMap: ShiftTable, names: seq<Letter>)
    requires 0 <= i <= 51 && TableInv(m, i, shiftMap, names) && Has(m, i)
    ensures |names| < 52 && TableInv(m, i - 1, shiftMap[i := |names|], names + [IdxToAlpha(i)])
  {
    assert |names + [IdxToAlpha(i)]| == CountFrom(m, i);
    DescendingSnoc(names, IdxToAlpha(i));
    StepSetShifts(m, i, shiftMap, names);
    StepSetComplete(m, i, shiftMap, names);
    forall j: Index | j <= i - 1 || !Has(m, j)
      ensures shiftMap[i := |names|][j] == 0
    {
      assert j != i;
    }
  }

  lemma TableInvStepClear(m: Occurrences, i: int, shiftMap: ShiftTable, names: seq<Letter>)
    requires 0 <= i <= 51 && TableInv(m, i, shiftMap, names) && !Has(m, i)
    ensures TableInv(m, i - 1, shiftMap, names)
  {
    forall j: Index | i - 1 < j && Has(m, j)
      ensures IdxToAlpha(j) in names
    {
      assert j != i;
    }
  }

  /** One iteration of the loop of `newTruth` at index `i`: an occurring index gets the
      next shift and its letter is appended to the names. */
  function TableStep(m: Occurrences, i: Index, shiftMap: ShiftTable, names: seq<Letter>): (r: (ShiftTable, seq<Letter>))
    requires TableInv(m, i, shiftMap, names)
    ensures TableInv(m, i - 1, r.0, r.1)
    ensures Has(m, i) ==> r.1 == names + [IdxToAlpha(i)] && r.0[i] == |names|
    ensures !Has(m, i) ==> r == (shiftMap, names)
  {
    if Has(m, i) then
      TableInvStepSet(m, i, shiftMap, names);
      (shiftMap[i := |names|], names + [IdxToAlpha(i)])
    else
      TableInvStepClear(m, i, shiftMap, names);
      (shiftMap, names)
  }

  /** The loop of `newTruth`, counting `i` down from 51; Go's loop stops when the byte
      counter wraps from 0 to 255, here when `i` reaches -1. The counter `shift` is the
      number of names found so far. */
  function NewTruthLoop(m: Occurrences, i: int, shift: nat, shiftMap: ShiftTable, names: seq<Letter>): (t: Truth)
    requires -1 <= i <= 51 && shift == |names| && TableInv(m, i, shiftMap, names)
    decreases i + 1
    ensures t.val == 0 && TableInv(m, -1, t.shiftMap, t.names)
  {
    if i < 0 then Truth(0, shiftMap, names)
    else
      var r := TableStep(m, i, shiftMap, names);
      NewTruthLoop(m, i - 1, |r.1|, r.0, r.1)
  }

  /** `newTruth`: `Val` is 0; `Names` holds every letter whose bit is set, once each, in
      descending canonical order; the occurring letters get the shifts 0..k-1 with
      `Names[s]` at shift `s`; every other entry of the shift map stays 0. */
  function NewTruth(m: Occurrences): (t: Truth)
    ensures t.val == 0
    ensures |t.names| == CountFrom(m, 0)
    ensures Descending(t.names)
    ensures forall s :: 0 <= s < |t.names| ==>
              Has(m, AlphaToIdx(t.names[s])) && t.shiftMap[AlphaToIdx(t.names[s])] == s
    ensures forall j: Index :: Has(m, j) ==> IdxToAlpha(j) in t.names
    ensures forall j: Index :: !Has(m, j) ==> t.shiftMap[j] == 0
  {
    NewTruthLoop(m, 51, 0, seq(52, _ => 0), [])
  }

  /** A letter is named by `newTruth(m)` exactly when its bit is set in `m`. */
  lemma NewTruthNames(m: Occurrences, c: Letter)
    ensures c in NewTruth(m).names <==> Has(m, AlphaToIdx(c))
  {
    var t := NewTruth(m);
    LetterIndexBijection(c, c, AlphaToIdx(c));
    if c in t.names {
      var s :| 0 <= s < |t.names| && t.names[s] == c;
    }
  }

  /** A dense shift table: at most 52 names, and `Names[s]` has shift `s`. */
  predicate Dense(t: Truth) {
    |t.names| <= 52 && forall s :: 0 <= s < |t.names| ==> t.shiftMap[AlphaToIdx(t.names[s])] == s
  }

  lemma NewTruthDense(m: Occurrences)
    ensures NewTruth(m).val == 0 && Dense(NewTruth(m))
  {
  }

  /** In a dense table, `get` on `Names[s]` reads bit `s` of `Val`, whatever value `Val`
      has been given. */
  lemma GetReadsOwnBit(t: Truth, v: U64, s: nat)
    requires Dense(t) && s < |t.names|
    ensures Get(t.(val := v), t.names[s]) == Bit(v, s)
  {
  }

  // ---------------------------------------------------------------------------
  // Truth.String (parse.go:54-71)

  function Digit(b: bool): char {
    if b then '1' else '0'
  }

  /** The entries `name:digit` from position `i` on, separated by commas. */
  function Entries(t: Truth, i: nat): string
    decreases |t.names| - i
  {
    if i >= |t.names| then ""
    else
      [t.names[i], ':', Digit(Get(t, t.names[i]))]
      + (if i < |t.names| - 1 then "," else "")
      + Entries(t, i + 1)
  }

  /** `Truth.String`: `{a:1,G:0}`-style listing of every name with its current value. */
  function TruthString(t: Truth): string {
    "{" + Entries(t, 0) + "}"
  }

  /** The character at position `p` of the entries that start with name `i`. */
  function EntryChar(t: Truth, i: nat, p: nat): char
    requires i + p / 4 < |t.names|
  {
    var s := i + p / 4;
    if p % 4 == 0 then t.names[s]
    else if p % 4 == 1 then ':'
    else if p % 4 == 2 then Digit(Get(t, t.names[s]))
    else ','
  }

  lemma {:induction false} EntriesLayout(t: Truth, i: nat)
    requires i <= |t.names|
    decreases |t.names| - i
    ensures |Entries(t, i)| == if i == |t.names| then 0 else 4 * (|t.names| - i) - 1
    ensures forall p :: 0 <= p < |Entries(t, i)| ==> i + p / 4 < |t.names| && Entries(t, i)[p] == EntryChar(t, i, p)
  {
    if i < |t.names| {
      EntriesLayout(t, i + 1);
      var e := Entries(t, i);
      var head := [t.names[i], ':', Digit(Get(t, t.names[i]))] + (if i < |t.names| - 1 then "," else "");
      var rest := Entries(t, i + 1);
      assert e == head + rest;
      forall p | 0 <= p < |e|
        ensures i + p / 4 < |t.names| && e[p] == EntryChar(t, i, p)
      {
        if p >= 4 {
          assert e[p] == rest[p - 4];
          assert (p - 4) / 4 == p / 4 - 1 && (p - 4) % 4 == p % 4;
        }
      }
    }
  }

  /** The text of a truth set: braces around k entries of four characters (name, colon,
      digit of the name's current value, comma), the last comma left out. */
  lemma TruthStringLayout(t: Truth)
    ensures |TruthString(t)| == if |t.names| == 0 then 2 else 4 * |t.names| + 1
    ensures TruthString(t)[0] == '{' && TruthString(t)[|TruthString(t)| - 1] == '}'
    ensures forall p :: 1 <= p < |TruthString(t)| - 1 ==>
              (p - 1) / 4 < |t.names| && TruthString(t)[p] == EntryChar(t, 0, p - 1)
  {
    EntriesLayout(t, 0);
    var e := Entries(t, 0);
    assert TruthString(t) == "{" + e + "}";
    forall p | 1 <= p < |TruthString(t)| - 1
      ensures (p - 1) / 4 < |t.names| && TruthString(t)[p] == EntryChar(t, 0, p - 1)
    {
      assert TruthString(t)[p] == e[p - 1];
    }
  }
}
