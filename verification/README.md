# vera in Dafny: lexer, parser and truth sets

`vera` parses propositional formulas such as `!(a & b) > c` and evaluates them under
sets of truth values. This project models its core in Dafny and proves properties of
that model:

- **The lexer.** `removeAllWS`, the two state functions `lexStatement` / `lexOperator`,
  their nesting counter and the `allowEOF` flag. The lexer's output channel becomes a
  sequence of results. That sequence ends either cleanly or with exactly one error.
- **Letters.** The mapping between the 52 ASCII letters and their canonical indices
  (`alphaToIdx` / `idxToAlpha`).
- **Truth sets.** `Truth`, `newTruth` (the dense shift table and `Names`), `get` and
  `Truth.String`.
- **Statements.** The five node kinds, their `Eval` and `String`, the five operator
  functions and `byteToOp`.
- **The parser.** `stmtBuilder`, `parseRecursive` and `Parse`. The channel shared by
  nested calls is modelled as the whole stream plus a position, and each call returns the
  position after the last item it consumed.
- **Truth tables.** The logic of `RenderTT` (zero-atomics error, and the sweep over
  2^k values of `Val`), as a method that computes the output column.

The main results are these:

- **The lexer accepts exactly a described language.** It succeeds on exactly the
  well-formed inputs (`WellFormed`: admissible character sequence, balanced parentheses,
  ends in a statement). Its output is always a well-formed stream.
- **The parser's panics cannot happen.** The parser is specified on well-formed streams,
  so the three panics of `parseRecursive` / `byteToOp` cannot occur on lexer output.
- **Parsing inverts rendering.** Parsing the text of any statement `s` succeeds. It returns
  `Canon(s)`: every run of `!` is reduced to its parity, and parentheses leave no node.
  The truth set it returns names exactly the letters of `s`. `Canon(s)` evaluates like `s`.
- **Whole parses.** A successful parse consumes the whole lexer output. Its truth set
  names exactly the letters of the input, and bit `s` of its `Val` is the value of
  `Names[s]`.
- **Which inputs parse.** Parsing succeeds exactly on the well-formed inputs in which no
  two operators have balanced text between them, that is, in which no group holds two
  operators at its own level. On the other well-formed inputs it reports a chained
  operator. A one-pass scan that keeps, for each open group, whether it has read an
  operator (`Chaining.ChainFrom`) decides the same thing. On every input, the error is a
  chained operator exactly when the text the lexer read before stopping is chained, and
  otherwise it is the lexer's own error.
- **Truth tables.** The table of a parsed statement lists every assignment of its names
  exactly once.

Files: `results.dfy` (Option/Result), `letters.dfy`, `lexer.dfy`, `truths.dfy`,
`stmts.dfy`, `parser.dfy`, `parsefacts.dfy`, `rendering.dfy`, `roundtrip.dfy`,
`chaining.dfy` (which inputs parse), `truthtable.dfy`, `cases.dfy` (concrete inputs).

Where the code and the description of the program disagree, the model follows the code:

- **Name order.** `newTruth` counts down from index 51, so `Names` is in *descending*
  canonical order. Bit 0 of `Val` belongs to the canonically largest letter, as the doc
  comment at parse.go:27-32 says. The test table at parse_test.go:15-26 assumes the
  opposite order for the asymmetric operators. That test also calls a lowercase API
  (`parse`, `eval`, `val`) that does not exist.
- **Empty input.** The empty input (and all-whitespace input) is rejected with
  "unexpected EOF", since `allowEOF` starts false. lex_test.go:11 expects it to lex
  cleanly.
- **Rendering is not a syntactic fixed point.** `!(!a)` parses to a double negation.
  Its text is `!!a`, which parses to `a` (`ParseCases.ParseDoubleNegation`,
  `ParseCases.RenderDoubleNegation`). What holds is the semantic round trip, and
  stability after one round (`RoundTrip.ParseRenderStable`).

## Model

| member | source | states |
|---|---|---|
| Letters.AlphaToIdx | parse.go:9-16 | 'A'..'Z' map to 0..25 and 'a'..'z' to 26..51 |
| Letters.IdxToAlpha | parse.go:18-24 | the letter of an index maps back to that index, and indices below 26 give upper-case letters |
| Letters.LetterIndexBijection | parse.go:9-24 | the two maps are inverse in both directions, injective, and canonical order is character order |
| Lexer.RemoveAllWS | lex.go:51-60 | the result contains no whitespace character |
| Lexer.RemoveAllWSKeeps | lex.go:51-60 | every non-whitespace character survives as often as it occurs in the input |
| Lexer.RemoveAllWSAppend | lex.go:51-60 | removal works piecewise over concatenation, so the kept characters stay in input order |
| Lexer.RemoveAllWSNone | lex.go:51-60 | a text without whitespace is returned unchanged |
| Lexer.Nest | lex.go:105-108 | entering a group makes end of input illegal, and the matching `denest` succeeds and restores the depth |
| Lexer.Denest | lex.go:110-118 | fails exactly at depth 0; otherwise the depth drops by one and EOF becomes legal exactly at depth 0 |
| Lexer.StatementStep | lex.go:120-140 | accepts exactly `!`, `(`, `0`, `1` and ASCII letters, each with its fixed kind; any other character is "unexpected char"; after success `allowEOF` holds exactly in `lexOperator` at depth 0 |
| Lexer.OperatorStep | lex.go:142-155 | accepts exactly the five operator symbols and a `)` at positive depth; `)` at depth 0 is the unmatched-close error and any other character is "unexpected char"; the EOF rule holds after success |
| Lexer.Run | lex.go:73-93 | one lexeme per consumed character, carrying that character with its kind, in input order; only the last item can be an error; either every character was consumed or the stream ends in an error |
| Lexer.Lex | lex.go:62-71 | every output is a well-formed stream: errors only last, each lexeme accepted in the state its predecessor leaves, a clean end only in `lexOperator` |
| Lexer.RunStreamFrom | lex.go:73-93 | whatever the machine emits from a state that obeys the EOF rule is a well-formed stream |
| Lexer.RunNesting | lex.go:105-118 | no prefix of the output closes more groups than are open |
| Lexer.StepAgrees | lex.go:120-155 | after a good prefix, one step succeeds exactly when the prefix one character longer is good, lands in that prefix's state and never reports EOF |
| Lexer.RunAccepts | lex.go:73-93 | from a good prefix, the rest lexes without error exactly on well-formed input, and ends in "unexpected EOF" exactly when it stops too early |
| Lexer.LexAccepts | lex.go:62-93 | `Lex` succeeds exactly on well-formed input and reports "unexpected EOF" exactly on good but unfinished input |
| Lexer.LexRejectsIncomplete | lex.go:67-80 | empty input, a trailing `!` or operator, and an unclosed `(` are all rejected, with "unexpected EOF" when nothing failed earlier |
| Truths.TableInvStepSet | parse.go:83-88 | an occurring index gets the next shift and its letter is appended, keeping the names descending and complete above it |
| Truths.TableInvStepClear | parse.go:83 | a non-occurring index changes nothing and keeps the table invariant |
| Truths.NewTruthLoop | parse.go:82-89 | the countdown loop ends with every occurring letter named once, in descending order, at its own shift, and every other shift 0 |
| Truths.NewTruth | parse.go:73-91 | `Val` is 0; `Names` has one entry per set bit, strictly descending; `Names[s]` has shift `s`; every set bit is named; other shifts are 0 |
| Truths.NewTruthNames | parse.go:73-91 | a letter is named exactly when its bit is set |
| Truths.NewTruthDense | parse.go:82-89 | `newTruth` builds a dense table with at most 52 names and `Val` = 0 |
| Truths.Get | parse.go:50-52 | `get` tests the letter's shift bit of `Val`; what that bit means is stated by `Truths.GetReadsOwnBit` |
| Truths.Entries | parse.go:57-68 | the loop over `Names` that writes `name:digit` entries; its layout is stated by `Truths.EntriesLayout` |
| Truths.TruthString | parse.go:54-71 | `{`, the entries, `}`; its layout is stated by `Truths.TruthStringLayout` |
| Truths.GetReadsOwnBit | parse.go:50-52 | in a dense table `get` on `Names[s]` reads bit `s` of `Val`, whatever `Val` is |
| Truths.EntriesLayout | parse.go:57-68 | each name contributes `name:digit`, separated by commas, with the digit its current value |
| Truths.TruthStringLayout | parse.go:54-71 | the text is `{`, k four-character entries without the last comma, `}`; length 2 or 4k+1 |
| Stmts.OpSymbol | lex.go:10-17 | every operator is written with one of the five operator symbols |
| Stmts.ByteToOp | parse.go:187-204 | every operator symbol maps to the operator written with it |
| Stmts.OpSymbolBijection | parse.go:187-204 | symbol and operator determine each other |
| Stmts.Apply | parse.go:167-185 | `&` is and, `\|` is or, `^` is exclusive or, `>` is false exactly when left holds and right does not, `=` is equality |
| Stmts.EvalReadsOnlyAtoms | parse.go:134-161 | evaluation depends only on the truth values of the letters the statement mentions |
| Stmts.Eval | parse.go:112-161 | `0` is false, `1` true, `!` negates, a letter reads its value with `get`, a binary statement applies its operator; `Stmts.EvalReadsOnlyAtoms` and `RoundTrip.CanonEval` state its properties |
| Stmts.Render | parse.go:116-165 | the text of each statement kind; `Rendering.RenderWellFormed` and `RoundTrip.ParseRender` state that the text is well formed and parses back |
| Stmts.SurroundIfBinary | parse.go:103-108 | exactly binary statements are parenthesised inside another statement; `Rendering.RenderCompact` relates it to the compact text |
| Parser.Negate | parse.go:219-221 | a `!` flips the slot's parity and keeps its statement |
| Parser.Build | parse.go:223-228 | the built statement mentions exactly the letters of the slot's statement |
| Parser.BuildEval | parse.go:219-228 | the built statement evaluates to the slot statement's value flipped by the parity, and a `negate` flips the built statement's value |
| Parser.Pick | parse.go:250-256 | the left slot while no operator is read, the right slot afterwards |
| Parser.WithPick | parse.go:250-256 | replacing the picked slot leaves the other slot, the state, the operator and the mask unchanged |
| Parser.Fill | parse.go:263-293 | a statement read into the picked slot keeps the slot's parity and the other slot, and moves to `expOpOrClose` on the left and `expClose` on the right |
| Parser.Finish | parse.go:315-318 | the result mentions the letters of the left slot, and of the right slot when an operator was read |
| Parser.FinishEval | parse.go:315-318 | the result evaluates as the left slot's statement alone, or as the operator applied to both slots' statements |
| Parser.ParseLoop | parse.go:257-318 | on a well-formed stream a success consumed only lexemes, stopping after a `)` or at the end; a failure is the stream's own trailing error or a chained operator |
| Parser.ExpectStmt | parse.go:263-293 | the same stop-and-error guarantee for the `expStmt` case |
| Parser.ExpectOpOrClose | parse.go:294-305 | the same guarantee for the `expOpOrClose` case |
| Parser.ParseRecursive | parse.go:230-319 | a successful call consumes at least one lexeme and stops as above; errors are the lexer's or a chained operator |
| Parser.Parse | parse.go:206-211 | a success carries `Val` = 0, descending names and a dense truth set, in which bit `s` of `Val` is the value of `Names[s]` (as parse.go:40-42 promises); a failure is the lexer's trailing error or a chained operator, and `Chaining.ParseErrors` says which |
| ParseFacts.CoversLetter | parse.go:282-284 | a letter adds exactly its own bit to the occurrence mask |
| ParseFacts.LoopConsumed | parse.go:257-318 | the loop's mask adds exactly the letters it read, and the loop ends at the end of the stream or at the `)` closing its group |
| ParseFacts.StmtConsumed | parse.go:263-293 | the same for the `expStmt` case |
| ParseFacts.OpenConsumed | parse.go:274-281 | a nested group's letters are ORed into the caller's mask, and the caller continues after the group's `)` |
| ParseFacts.OpOrCloseConsumed | parse.go:294-305 | the same for the `expOpOrClose` case |
| ParseFacts.RecursiveConsumed | parse.go:245-248 | a call's mask is exactly the set of letters it read, and it returns at its own `)` or the end |
| ParseFacts.ParseConsumesAll | parse.go:206-211 | a successful parse consumes the whole lexer output, which is then error-free, and the input is well formed |
| ParseFacts.ParseAgreesWithLexer | parse.go:258-261 | success implies well-formed input; a lexer error implies ill-formed input; on well-formed input the only failure is a chained operator |
| ParseFacts.ParseNames | parse.go:206-211 | the names of a successful parse are exactly the letters occurring in the input |
| ParseFacts.NegationRun | parse.go:269-273 | after n `!`s the loop continues as if the slot's parity had been flipped n times, nothing else changing |
| ParseFacts.GroupAddsNoNode | parse.go:274-281 | a group followed by its `)` or the end yields the group's own statement and mask, with no extra node |
| Rendering.RenderCompact | parse.go:101-165 | removing whitespace from a statement's text leaves its compact text |
| Rendering.RenderWellFormed | parse.go:101-165 | the text of every statement is well formed and lexes without error |
| RoundTrip.IndicesAtoms | parse.go:245-248 | a statement's occurrence bits are exactly the indices of its letters |
| RoundTrip.SlotRoundTrip | parse.go:263-293 | reading the text of `x` in a slot fills the slot with `x`'s core, flips its parity by `x`'s leading negations and records `x`'s letters |
| RoundTrip.SlotNegated | parse.go:269-273 | a `!` before a statement's text only flips the slot's parity |
| RoundTrip.SlotBinary | parse.go:274-281 | a parenthesised binary statement fills the slot through one nested call |
| RoundTrip.GroupLeft | parse.go:289-299 | the left operand fills the left slot and the operator is recorded before the right operand |
| RoundTrip.GroupRoundTrip | parse.go:230-319 | one grouping level over a binary statement's text returns its canonical form and letters, stopping after its `)` or at the end |
| RoundTrip.ParseRender | parse.go:206-211 | parsing the text of any statement succeeds with its canonical form and the truth set of its letters |
| RoundTrip.CanonEval | parse.go:219-228 | the canonical form evaluates like the statement under every truth set |
| RoundTrip.ParseRenderEval | parse.go:206-211 | the statement parsed from any statement's text evaluates like the original |
| RoundTrip.CanonIdempotent | parse.go:219-228 | canonical forms are fixed points, have no double negation at the top, and keep the letters |
| RoundTrip.ParseRenderStable | parse.go:206-211 | after one round, parsing and rendering reach a fixed point |
| RoundTrip.ParseRenderNames | parse.go:73-91 | the truth set of a statement's parsed text names exactly the statement's letters |
| TruthTable.TruthColumn | truthtable.go:60-86 | no names means the zero-atomics error; otherwise 2^k rows (none from 63 names on), row `i` holding the value under `Val` incremented `i` times with 64-bit wrap |
| TruthTable.EveryAssignmentIsARow | truthtable.go:75-81 | every assignment to the names of a dense truth set is some row of the table |
| TruthTable.RowsAreDistinct | truthtable.go:75-81 | two different rows assign some name differently |
| Chaining.ChainedIff | parse.go:306-311 | the scan finds a chained operator exactly when some two operators of the text have balanced text between them |
| Chaining.LoopChain | parse.go:257-318 | on a stream that spells a text and then holds at most the lexer's error, a failure of the loop is a chained operator exactly when the scan from its position finds one, with its group marked as having read an operator when its frame holds one; on success the scan resumes where the loop stopped, with the group closed |
| Chaining.StmtChain | parse.go:263-293 | the same for the `expStmt` case |
| Chaining.PassChain | parse.go:265-273 | a constant, a letter or `!` is passed over by the scan and leaves the frame's operator unchanged |
| Chaining.OpenChain | parse.go:274-281 | a `(` starts a nested call that the scan treats as a new innermost group with no operator |
| Chaining.OpOrCloseChain | parse.go:294-305 | an operator marks the group as having read one, and a `)` closes the group |
| Chaining.CloseChain | parse.go:306-312 | in a group that has read its operator, a second operator is exactly what the scan reports as chained, and a `)` closes the group |
| Chaining.RecursiveChain | parse.go:230-319 | a call is one group of the scan, starting with no operator read |
| Chaining.TopChain | parse.go:257-318 | the top-level call fails exactly when the text is chained or the stream ends in the lexer's error, and its error is a chained operator exactly when the text is chained |
| Chaining.CleanParse | parse.go:306-311 | on an input the lexer accepts, `Parse` fails exactly when the text is chained, and then with a chained operator |
| Chaining.ParseSucceedsIff | parse.go:206-211 | `Parse` succeeds exactly on well-formed inputs without two operators at the same level of one group; on well-formed inputs with such operators it reports a chained operator |
| Chaining.ParseErrors | parse.go:258-261 | on every input, parsing fails exactly when the text the lexer read is chained or the lexer failed; the error is a chained operator exactly when that text is chained, and otherwise the lexer's own error |
| Lexer.LexSpells | lex.go:73-93 | the error-free output of the lexer holds one lexeme per character of the input without whitespace, in order |
| Lexer.LexedText | lex.go:73-93 | the text the lexer read before stopping is a prefix of the input without whitespace |
| Lexer.LexTranscript | lex.go:73-93 | the output is one lexeme per character of that prefix, then at most the error; it is error-free exactly when the prefix has the output's length, and then the prefix is the whole text |
| TruthTable.ParsedAssignmentsAreRows | truthtable.go:75-81 | in the table of a parsed statement every assignment to its names is a row: row `Encode(a)` gives each name its value in `a` |
| TruthTable.ParsedRowsDistinct | truthtable.go:75-81 | two different rows of the table of a parsed statement give some name different values |
| ParseCases.ChainedExamples | parse.go:306-311 | the scan flags `a&b\|c` but neither `(a&b)\|c` nor `a&(b\|c)` |
| ParseCases.ParseDoubleNegation | parse.go:274-281 | `!(!a)` parses to a double negation: the group becomes the negated slot's statement |
| ParseCases.RenderDoubleNegation | parse.go:138-140 | that double negation renders as `!!a`, which parses to `a` |
| ParseCases.ParseChained | parse.go:306-311 | `a&b\|c` fails with a chained-operator error at `\|` |

## Left out

- The goroutine and buffered channel of `lex` (lex.go:62-71, 89) are not modelled. The
  stream is a sequence of results, and a nested call's consumption is a returned position.
- Byte indexing of the input (lex.go:95-103) is modelled over characters. On a multi-byte
  UTF-8 character, Go reports an "unexpected char" on its first byte. The model reports it
  on the character. The lexeme streams agree otherwise.
- Invalid UTF-8 in `removeAllWS` is not modelled.
- `unicode.IsSpace` is written out as a fixed list of code points.
- The text of Go's error messages is not modelled. Errors are kinds: unexpected
  character (with the state that expected it), unmatched `)`, unexpected EOF, and chained
  operator.
- On failure, `Parse` also returns a nil statement and `newTruth(0)`. The model returns
  only the error.
- The panics at parse.go:202, 287 and 304 are not modelled as behaviour. `ByteToOp` and
  the parser require what the lexer guarantees, and `Lex` is proved to guarantee it.
- The stored `opSym` string and the function value in `binaryStmt` are not stored. Both
  are determined by the operator.
- The occurrence mask `atomics` (`uint64`) is modelled as the set of its set bits. Only
  bits 0..51 are ever set, so no information is lost.
- TruthTable.TruthColumn: drawing of the table (CharSets, header, colours via
  `fatih/color`, `io.Writer` errors) is not modelled. Only the output column is computed,
  and the input digits of each row are the bits of `Val`.
- TruthTable.TruthColumn: the row count `1 << len(truth.Names)` is Go's 64-bit `int`, as
  on 64-bit targets. On a 32-bit target the shift turns negative from 31 names on, and
  that case is not modelled.
- The command-line program under cli/ is not modelled.
