# rustis100 in Dafny

A model of the core of `rustis100`, a toy TIS-100 interpreter written in Rust.
A TIS-100 program is a list of nodes. Each node has two registers, `acc` and
`bak`, and a cyclic list of instructions. The model covers four pieces:

- the node data model;
- the parser, text to nodes;
- the tick engine, which runs every node for a number of ticks;
- the draft `Number '+' Number` parser.

## Modules

- `RustStd` (`rust_std.dfy`): the parts of Rust's standard library the code
  relies on, stated over `seq<char>`:
  - the `u32` range;
  - `char::is_digit(10)` and `str::parse::<u32>`;
  - the `while … is_digit(10)` digit scan;
  - `str::split` and `str::lines`.
- `Errors` (`errors.dfy`): the error kinds of `InterpretError` and an
  `Outcome` type. An `Outcome` is `Ok`, `Err(kind)`, or `Panic` for a Rust
  panic. It also defines `collect::<Result<Vec<_>, _>>` as `CollectAll`.
- `Tis100` (`tis100.dfy`): `NodeState`, `Instruction`, `Node`, their
  constructors, and the sample program text.
- `Parse` (`parse.dfy`): the four stages of `parse`:
  1. strip spaces, tabs and commas;
  2. split at `@` and drop each segment's first character;
  3. split each body into non-empty lines, recording and cutting jumpmark labels;
  4. decode each kept line with the lexer `next_token`/`want`.

  The functions state what each stage computes. The imperative parts are
  methods proved equal to those functions:
  - `ParseNode` and its two loops, `FilterLines` and `DecodeLines`;
  - `NextToken`, with its digit-scanning `while` loops.
- `Emu` (`emu.dfy`): `tick_n` is the method `TickN`, with its `for` loop.
  `tick_all_n` is `TickAllN`. Both are proved against `AccAfter`, the value
  of `acc` after `n` ticks. Lemmas cover:
  - composition of runs;
  - the closed form of a run;
  - periodicity.
- `Simple` (`simple.dfy`): `next_token_pure` (`NextTokenPure`) and `expr_pure`
  (`ExprPure`), proved against the functions `TokenAt` and `Sum`.
- `Render` (`render.dfy`): a reference printer that writes node programs in
  the syntax the parser reads. It exists to state round trips:
  - parsing a rendered program gives back one fresh node per program, in order;
  - any text that parses can be rendered and parsed again to the same nodes;
  - each rendered line decodes to its instruction.
- `SampleProgram` (`sample.dfy`): the sample program worked through the
  parser and the tick engine, plus a few small failing and labelled inputs.

Where the code panics, the model says so with the `Panic` outcome rather
than a precondition. This covers four cases:
- `want` indexes one past the end when exactly two characters remain;
- `parse::<u32>().unwrap()` fails on a number that does not fit in 32 bits;
- `text.len() - 1` underflows on an empty text in `next_token_pure`;
- `left + right` overflows in `expr_pure`, in a debug build.

The one exception is the tick engine. Its `+=` and `-=` on `u32` are guarded
by a precondition, `NoOverflow`: no prefix of the run leaves the `u32` range.

What the code does, which the model follows:
- Registers are `u32` with no clamping. This differs from the TIS-100
  architecture, whose registers are signed and saturate at ±999.
- Only `ADD` and `SUB` are recognised. The TIS-100 mnemonics `NOP`, `MOV`
  and the jumps start no token and are token errors. There is no opcode or
  arity table.
- Each line yields exactly one instruction. In `ADD4ADD2`, the `ADD2` is
  ignored, so the sample decodes to `[Add(4)]` and `[Add(1)]`.
- After 3 ticks, the sample's accumulators are 12 and 3.
- 20 ticks of `ADD99` reach 1980.
- An `A` or `S` with exactly one character after it panics rather than
  giving a token error.

## Model

| member | source | states |
|---|---|---|
| `Tis100.NewNodeState` | src/tis100.rs:37-43 | both registers start at 0 |
| `Tis100.NewNode` | src/tis100.rs:21-27 | a new node has the initial registers and no instructions |
| `RustStd.Decimal` | src/tis100/parse.rs:194-195 | the rendering of a number is a non-empty run of digits |
| `RustStd.DecimalRoundTrip` | src/tis100/parse.rs:194-195 | the decimal value of the rendering of `n` is `n` |
| `RustStd.ParseU32Decimal` | src/tis100/parse.rs:194-195 | `parse::<u32>` of a rendered `u32` gives it back |
| `RustStd.DigitRunEnd` | src/tis100/parse.rs:190-193 | the digit scan stops after a run of digits, at the end or at a non-digit |
| `RustStd.DigitRunEndUnique` | src/tis100/parse.rs:190-193 | any end of a maximal digit run is where the scan stops |
| `RustStd.IndexOf` | src/tis100/parse.rs:45 | the first occurrence of a character, or the length when it is absent |
| `RustStd.Split` | src/tis100/parse.rs:45 | `split` gives at least one piece, and no piece contains the separator |
| `RustStd.JoinSplit` | src/tis100/parse.rs:45 | joining the pieces of a split with the separator gives the text back |
| `RustStd.SplitJoin` | src/tis100/parse.rs:45 | splitting a join of separator-free pieces gives the pieces back |
| `RustStd.Lines` | src/tis100/parse.rs:73 | no line of `lines` contains `'\n'` |
| `RustStd.LinesUnlines` | src/tis100/parse.rs:73 | `lines` of `'\n'`-terminated plain lines gives those lines back |
| `RustStd.UnlinesLines` | src/tis100/parse.rs:73 | without `'\r'`, `lines` loses only a missing final `'\n'` |
| `Errors.Propagate` | src/tis100/parse.rs:118 | an early `return Err(e)` keeps the failure and its kind |
| `Errors.CollectAllOk` | src/tis100/parse.rs:44-51 | `collect` succeeds iff every element succeeds, and then holds each element's value in order |
| `Errors.CollectAllFirstFailure` | src/tis100/parse.rs:44-51 | a failed `collect` fails as its first failing element, and every element before it succeeded |
| `Errors.CollectAllFailurePersists` | src/tis100/parse.rs:92-146 | once a prefix fails, later elements do not change the result |
| `Errors.CollectAllSnoc` | src/tis100/parse.rs:92-146 | one more successful element extends a successful collection by its value |
| `Errors.CollectAllSingle` | src/tis100/parse.rs:92-146 | a one-element collection is that element's outcome |
| `Parse.Strip` | src/tis100/parse.rs:37 | no space, tab or comma remains, and the text gets no longer |
| `Parse.StripAppend` | src/tis100/parse.rs:37 | stripping works character by character: it keeps the order and distributes over concatenation |
| `Parse.StripKeepsOthers` | src/tis100/parse.rs:37 | every other character, `'\n'` included, is kept as often as it occurs |
| `Parse.StripPlain` | src/tis100/parse.rs:37 | text without insignificant characters is unchanged |
| `Parse.StripIdempotent` | src/tis100/parse.rs:37 | stripping twice is stripping once |
| `Parse.NonEmpty` | src/tis100/parse.rs:47 | every kept piece is non-empty |
| `Parse.NonEmptyMembers` | src/tis100/parse.rs:47 | a piece is kept iff it occurs and is non-empty |
| `Parse.NonEmptyAppend` | src/tis100/parse.rs:47 | the filter keeps the order of the pieces |
| `Parse.NonEmptyAll` | src/tis100/parse.rs:47 | the filter drops nothing when no piece is empty |
| `Parse.Segments` | src/tis100/parse.rs:44-47 | every `@`-separated segment passed on is non-empty |
| `Parse.NodeBodies` | src/tis100/parse.rs:49 | one body per segment |
| `Parse.ParseOk` | src/tis100/parse.rs:44-53 | parsing succeeds iff every segment, cut after its first character, parses as a node; then there is one node per segment, in order |
| `Parse.ParseFirstFailure` | src/tis100/parse.rs:44-53 | a failed parse fails as its first failing segment does, and all segments before it parsed |
| `Parse.LabelColonFrom` | src/tis100/parse.rs:77 | the first `':'` after a word character, at or after a position |
| `Parse.JumpmarkEnd` | src/tis100/parse.rs:69-77 | the leftmost match of `\w+:` ends just after the first colon that follows a word character, and there is no match without one |
| `Parse.JumpmarksKeys` | src/tis100/parse.rs:76-78 | a key is in the table iff some non-empty line declares it |
| `Parse.JumpmarksLatest` | src/tis100/parse.rs:75-78 | a key maps to the index of the last line declaring it, so later duplicates overwrite earlier ones |
| `Parse.KeptUnlabelled` | src/tis100/parse.rs:76-86 | lines without jumpmarks are all passed on unchanged and record nothing |
| `Parse.FilterStep` | src/tis100/parse.rs:76-86 | one more line adds its label at its index and passes on its remainder: nothing after the colon drops the line, otherwise the text from one character after the character that follows the colon |
| `Parse.ParseNode` | src/tis100/parse.rs:60-155 | `parse_node` returns `ParsedNode` of its text, and its jumpmark table is `Jumpmarks` of the non-empty lines |
| `Parse.FilterLines` | src/tis100/parse.rs:72-89 | the filter loop passes on `Kept(lines)` and builds `Jumpmarks(lines)` |
| `Parse.DecodeLines` | src/tis100/parse.rs:92-146 | the decode loop returns the collection of the lines' decodings, stopping at the first failure |
| `Parse.TokenAt` | src/tis100/parse.rs:159-200 | at or past the end the token is `EOF` at the same position; every other token moves the position forward, within the text |
| `Parse.NextToken` | src/tis100/parse.rs:159-200 | `next_token` with its digit-scan loops computes `TokenAt` |
| `Parse.TokenAtNumber` | src/tis100/parse.rs:189-197 | on a digit, the token is the value of the maximal digit run with the position after it, or a panic when the value does not fit in `u32` |
| `Parse.TokenAtOperator` | src/tis100/parse.rs:183-188 | an operator token appears iff the text there is `ADD` or `SUB`; it advances by 3 and is `Add` exactly for `ADD` |
| `Parse.TokenAtFailures` | src/tis100/parse.rs:166-216 | every lexer error is a token error, and exactly when; the lexer panics exactly on `A`/`S` with one character left and on numbers too large for `u32` |
| `Parse.DecodeLineAccepts` | src/tis100/parse.rs:94-145 | a line decodes iff it starts with `ADD` or `SUB` and then a digit run that fits in `u32`; it decodes to `Add`/`Sub` of that value and never to `Nop` |
| `Parse.DecodeAfterOperator` | src/tis100/parse.rs:121-143 | after an operator, a line decodes iff a number token follows |
| `Parse.DecodeLineFailures` | src/tis100/parse.rs:101-131 | a non-operator first token or a non-number second token (`EOF` included) is a syntax error; lexer failures pass through unchanged |
| `Parse.DecodeLineIgnoresRest` | src/tis100/parse.rs:121-127 | whatever follows the number, if it does not extend it, does not change the decoding |
| `Emu.TickN` | src/tis100/emu.rs:12-28 | `acc` becomes `AccAfter` of the run, `bak` is unchanged, and an empty program or zero ticks returns the state itself |
| `Emu.TickAllN` | src/tis100/emu.rs:3-9 | the same nodes in the same order with the same programs, and each node's state is its own `tick_n` |
| `Emu.AccAfterCompose` | src/tis100/emu.rs:17-19 | `tick_n(tick_n(s, I, a), I, b) == tick_n(s, I, a + b)` when `a` is a multiple of the program length |
| `Emu.NoOverflowCompose` | src/tis100/emu.rs:18-21 | a run without overflow splits into two calls without overflow |
| `Emu.AccAfterClosedForm` | src/tis100/emu.rs:18-21 | `n` ticks run `n` div length whole cycles of the program's total effect, then its first `n` mod length instructions |
| `Emu.AccAfterPeriodic` | src/tis100/emu.rs:18-21 | one more whole cycle adds the program's total effect |
| `Emu.AccAfterShift` | src/tis100/emu.rs:20-21 | a larger starting `acc` shifts the whole run by the same amount |
| `Emu.NopProgramIdle` | src/tis100/emu.rs:22-24 | a program of `Nop` never changes `acc` |
| `Simple.TokenAt` | src/simple.rs:13-35 | an empty text panics; at or past the end the token is `EOF` at the same position, and `EOF` occurs nowhere else; any other character than a digit or `+` is a token error; `+` moves one on and a number moves forward |
| `Simple.NextTokenPure` | src/simple.rs:13-35 | `next_token_pure` with its digit-scan loop computes `TokenAt` |
| `Simple.TokenAtNumber` | src/simple.rs:22-30 | on a digit, the token is the value of the maximal digit run with the position after it, or a panic when it does not fit in `u32` |
| `Simple.TokenAtPlus` | src/simple.rs:31 | `+` is the `Add` token, one position on |
| `Simple.ExprPure` | src/simple.rs:37-70 | `expr_pure`'s three token reads compute `Sum` |
| `Simple.SumOfNumerals` | src/simple.rs:43-69 | two digit runs around a `+` give the sum of their values, or a panic when it exceeds `u32` |
| `Simple.SumOfTokens` | src/simple.rs:43-69 | the sum as the three token reads decide it |
| `Simple.SumOkShape` | src/simple.rs:43-67 | a successful sum read digits, then `+`, then a digit |
| `Simple.SumRoundTrip` | src/simple.rs:37-70 | rendering `a + b` and parsing it gives `a + b`, or a panic when it overflows `u32` |
| `Simple.SumFailures` | src/simple.rs:43-69 | a wrong kind of token in any of the three places is a syntax error, a failed read in any of the three places is passed through, two numbers around `+` give their sum or the overflow panic, and an empty text panics |
| `Render.InstructionText` | src/tis100.rs:47-53 | a rendered instruction is made of capitals and digits, and is at least 4 characters unless it is `Nop` |
| `Render.DecodeInstructionText` | src/tis100/parse.rs:94-145 | a rendered `Add` or `Sub` decodes to itself |
| `Render.UnlinesAvoids` | src/tis100/parse.rs:44-49 | lines without `@` join into text without `@` |
| `Render.StripUnlines` | src/tis100/parse.rs:37 | joining plain lines with `'\n'` keeps them plain |
| `Render.StripJoin` | src/tis100/parse.rs:37 | joining plain pieces with a significant separator keeps them plain |
| `Render.InstructionLinesPlain` | src/tis100/parse.rs:72-86 | rendered lines are non-empty, plain, without jumpmark and without `@` |
| `Render.NodeTextRoundTrip` | src/tis100/parse.rs:60-155 | a rendered node body without `Nop` parses back to a fresh node running that program |
| `Render.SegmentPlain` | src/tis100/parse.rs:44-49 | a rendered segment is plain, has no `@`, and is its body after one id character |
| `Render.ProgramPieces` | src/tis100/parse.rs:37-45 | stripping and splitting a rendered program gives back its pieces |
| `Render.ProgramBodies` | src/tis100/parse.rs:44-49 | the bodies the parser cuts out of a rendered program are the rendered bodies |
| `Render.ParseRoundTrip` | src/tis100/parse.rs:34-54 | parsing a rendered list of `Nop`-free programs gives one fresh node per program, in order |
| `Render.ParsedNodeFresh` | src/tis100/parse.rs:60-155 | a node that `parse_node` returns has both registers at 0 and no `Nop` in its program |
| `Render.ParsedFresh` | src/tis100/parse.rs:34-54 | every node that `parse` returns has both registers at 0 and a `Nop`-free program |
| `Render.ParseRenderParse` | src/tis100/parse.rs:34-54 | for any text that parses, rendering the parsed programs and parsing again gives the same nodes |
| `SampleProgram.SampleParses` | src/tis100.rs:7-13 | the sample parses to two nodes, `[Add(4)]` and `[Add(1)]`; the second `ADD2` is ignored |
| `SampleProgram.SampleTicks` | src/main.rs:14-15 | after 3 ticks the sample's accumulators are 12 and 3, without overflow |
| `SampleProgram.RunSample` | src/main.rs:5-15 | parsing the sample and ticking it 3 times gives `acc` 12 and 3, with `bak` 0 |
| `SampleProgram.TwentyTicks` | src/tis100/emu.rs:18-21 | 20 ticks of `ADD99` accumulate 1980 |
| `SampleProgram.LabelBeforeInstruction` | src/tis100/parse.rs:77-80 | `L:ADD1` records `L:` for line 0 and decodes `DD1`, a token error |
| `SampleProgram.LabelOnItsOwnLine` | src/tis100/parse.rs:77-83 | a line that is only `L:` is dropped, `L:` is recorded for line 0, and the next line is decoded |
| `SampleProgram.UnknownMnemonic` | src/tis100/parse.rs:198 | `@0XYZ1` fails with a token error |
| `SampleProgram.MissingOperand` | src/tis100/parse.rs:128 | `@0ADD` fails with a syntax error |
| `SampleProgram.TruncatedOperator` | src/tis100/parse.rs:204-209 | `@0AD` panics in `want` |

## Left out

- `src/main.rs` is modelled only as the sample run `RunSample`; its
  `println!` output is not modelled, and neither is the `println!` in
  `parse_node`.
- The message text of `InterpretError` and its `Display` formatting are
  not modelled; only the error kind (`TokenError` or `SyntaxError`) is.
- `src/token_error.rs` is not part of this model: the module tree does not
  reference it, and it only wraps a message.
- `RE_NODES` is not modelled: it is built but never used.
- `RE_JUMPMARK` is modelled by its match end, not as a regex: the first
  `':'` that follows a word character.
- `\w` is restricted to ASCII letters, digits and `_`. Unicode word
  characters are not modelled.
- Text is `seq<char>`. The panics of UTF-8 byte slicing (`&text[1..]`,
  `line[mat.end()+1..]` on a multi-byte character) are not modelled.
- `str::lines` follows current Rust: it drops one `'\r'` only before a
  `'\n'`.
- `Emu.TickN`: a `u32` overflow or underflow of `acc` is excluded by the
  precondition `NoOverflow` rather than modelled as a panic. In a release
  build it would wrap around instead; that is not modelled either.
- `Emu.TickAllN`: models taking the node vector by value, writing each
  node's state, and returning the vector. It works on a `seq<Node>`, so
  in-place aliasing through `&mut` is not modelled.
- `Parse.ParseNode`: returns its jumpmark table as a second result. The
  source builds the table and drops it, and nothing reads it.
- `Render.InstructionText`: `Nop` has no syntax. It renders as nothing, so
  the round trips are stated for programs without `Nop`.
- The commented-out `SimpleInterpreter` in `src/simple.rs` is not modelled.
- `simple.rs` is not in the module tree. It is modelled as written, with the
  `Token` enum and `InterpretError` kinds of its own.
- `Simple.ExprPure` and `Simple.Sum`: a `u32` overflow of `left + right`
  is modelled as the panic of a debug build. In a release build the sum
  wraps around and `Ok` is returned; that is not modelled.
