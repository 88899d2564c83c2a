# hack-asm core, modelled in Dafny

hack-asm is an assembler for the Hack machine language. The lexer turns the
source text into tokens. A backtracking recursive-descent parser built on a
small `Parser` class then reads them. It has an explicit stack of look-ahead
buffers and the combinators `optional` and `match`. For each line, `parse`
builds one of three things:

- an A instruction (`@number` or `@symbol`);
- a C instruction (`dest=operation;jump`), whose 7-bit ALU field comes from
  `flagsForOperation`;
- a label declaration (`(NAME)`).

`compile` gives every symbol that is not reserved an address. A symbol that
is a label gets its instruction index. Any other symbol gets the next free
variable address. `compile` then patches every placeholder A instruction in
place. `binaryTranslate` writes each instruction as sixteen `0`/`1`
characters and a line feed.

The project has these modules:

- `Base` holds `Option`, `Result` and the three error kinds. Speculative is a
  plain error that `optional` swallows. Fatal is an error named "fatal".
  Internal is the "Internal error" of a rollback without a buffer, or of a
  broken symbol table.
- `Instructions` holds registers, operation descriptions, the flag constants,
  the instruction record and the two mnemonic tables.
- `Encoder` holds `flagIf`, `loadOnly` and `flagsForOperation`. It also holds
  a reference semantics of the Hack ALU, used to prove that every accepted
  encoding computes what the operation means.
- `TokenCursor` is the token-level state of `Parser`, as pure functions:
  `nextTokenSimple`, `nextToken`, `lookAhead`, `rollback` and `expect`.
- `Grammar` holds the closures that `parse` hands to `optional` and `match`.
  They are a `Rule` datatype, run by mutually recursive functions that follow
  `optional` and `match` step by step. A closure that changes the program
  being assembled receives the program and returns the new one.
- `Driver` holds the loop of `parse` over lines, as functions.
- `Parsing` holds the `Parser` class and the imperative `Parse`. The class
  has the source's fields. Each method updates them in place and is proved
  equal to its function in `TokenCursor`, `Grammar` or `Driver`.
- `Discipline` holds the invariants of the look-ahead buffers. No rollback
  ever lacks a buffer. The cursor only moves forward. A failed rule leaves the
  program alone. Every successful rule consumes a token.
- `Effects` says what each rule does to the program. It proves that the
  symbol table `parse` returns holds one placeholder per new name, numbered
  -1, -2, … in first-use order.
- `Compile` holds the reverse lookup built by a loop, the in-place patch of
  an `array<Instruction>`, and what the compiled program is.
- `BinaryTranslate` holds the bit-writing loop and the listing. It proves
  that the listing reads back to the program.
- `Reading` holds reference functions saying which operand, operation and C
  instruction stands at the front of the tokens and how many tokens it
  takes. It proves that the operand `match` and the three operation
  alternatives read exactly that, in both revisions, and that the operation
  `match` and the whole C-instruction rule do too in the corrected parser. It also
  proves that `match` answers with the first alternative that yields
  something under `optional`.
- `Findings` holds concrete traces for the parser finding below.

Behaviour that the source has and a fix changes is parameterised by
`Revision`. `AsWritten` follows the source exactly. `Corrected` is the
intended behaviour. Where the documentation of the system and the code
disagree, the model follows the code. In particular, the code accepts the
unary `-1` and encodes it as zx|nx|zy|f, which the Hack ALU evaluates to -1.

## Model

| member | source | states |
|---|---|---|
| Instructions.DestinationMnemonicsAreBijective | src/parser.ts:244-252 | the destination table has exactly the keys M, D, MD, A, AM, AD, AMD and maps them one-to-one onto the seven non-zero 3-bit destination fields |
| Instructions.JumpMnemonicsAreBijective | src/parser.ts:254-262 | the jump table has exactly the keys JGT … JMP and maps them one-to-one onto the seven non-zero 3-bit jump fields |
| Encoder.FlagsForOperationAsWritten | src/parser.ts:131-224 | the encoder as written: every rejection is a fatal error, never a speculative one, so `match` cannot try another alternative |
| Encoder.AsWrittenAcceptance | src/parser.ts:131-224 | exactly which descriptions the source accepts (an if-and-only-if per kind): unary `-` of anything but 0, `!` of a register only, binary with a register first, constant second only for + and -, two registers unless D,D or A,M or M,A; the a bit is set iff an operand is M; for register subtraction nx is set iff the first operand is D and ny iff the second is |
| Encoder.FlagsForOperation | src/parser.ts:131-224 | the corrected encoder: every rejection is fatal |
| Encoder.CorrectedAcceptance | src/parser.ts:131-224 | the corrected encoder accepts only what the source accepts and answers the same; a binary operation is accepted iff its first operand is a register, its operator is not `!`, a constant second operand is 1 and goes with + or -, and of two register operands exactly one is D |
| Encoder.LoadOnlySelectsRegister | src/parser.ts:121-129 | `loadOnly(r)` makes the Hack ALU output exactly register r's value (D, A, or memory for M) |
| Encoder.UnarySubtractIsSound | src/parser.ts:143-155 | the flags for `-x` (x a register or 1) make the ALU output the 16-bit negation of x |
| Encoder.UnaryNotIsSound | src/parser.ts:156-162 | the flags for `!r` make the ALU output the bitwise complement of r |
| Encoder.PairAddIsSound | src/parser.ts:197-200 | for one D and one A/M operand, the flags for `+` compute their 16-bit sum |
| Encoder.PairSubtractIsSound | src/parser.ts:202-206 | the flags for `-` compute first minus second, whichever side holds D |
| Encoder.PairAndIsSound | src/parser.ts:208-210 | the flags for `&` compute the bitwise and |
| Encoder.PairOrIsSound | src/parser.ts:212-214 | the flags for `\|` compute the bitwise or |
| Encoder.RegisterPairIsSound | src/parser.ts:187-219 | every accepted register-register operation computes its meaning on the ALU |
| Encoder.EncodingIsSound | src/parser.ts:131-224 | every description the corrected encoder accepts yields flags that make the Hack ALU compute the description's meaning, for all values of D, A and M |
| Encoder.EncodesHackComputations | src/parser.ts:131-224 | the encoder produces the standard `a c1..c6` code of each of the 28 computations of the Hack machine language (0, 1, -1, D, A, !D, -D, D+1, D-1, D+A, D-A, A-D, D&A, D\|A and their M forms) |
| Encoder.SameBankOperandsMiscompile | src/parser.ts:186-196 | as written, `A+A` is accepted and encoded as the flags of `D+A`, which gives 1 where `A+A` is 2; the corrected encoder rejects it as fatal |
| Encoder.ConstantValueNotConsulted | src/parser.ts:175-185 | as written, the encoder gives a constant second operand 0 exactly the answer it gives 1, for every operator and first register |
| Encoder.AsWrittenAndOrPattern | src/parser.ts:186-214 | as written, `&` and `\|` of two registers are accepted for the same pairs, every pair but D,D and A,M or M,A; `&` is the a bit alone (set iff an operand is M) and `\|` adds nx, ny and no to it |
| Encoder.ConstantZeroOperandMiscompiles | src/parser.ts:175-185 | as written, `D+0` gets the same flags as `D+1` and computes D+1; the corrected encoder rejects it as fatal |
| TokenCursor.AppendToTop | src/parser.ts:303-305 | a token taken is appended to the innermost buffer only; the other buffers are unchanged |
| TokenCursor.NextTokenSimple | src/parser.ts:287-295 | the next token comes from the pushed-back queue before the lexer; it is the head of the remaining tokens, which lose it; with none left it is null; it becomes the last checked token |
| TokenCursor.NextToken | src/parser.ts:297-309 | like `nextTokenSimple`, and the token taken is recorded in the innermost open buffer; at the end nothing is recorded |
| TokenCursor.LookAhead | src/parser.ts:311-313 | opens one empty buffer on top and leaves the tokens alone |
| TokenCursor.Rollback | src/parser.ts:315-331 | fails with the internal error iff no buffer is open; on success it pops the innermost buffer and either hands its tokens to the next buffer (purge) or puts them back in front of the remaining tokens in order |
| TokenCursor.Expect | src/parser.ts:340-374 | consumes exactly one token when there is one; the end of input or a token of another kind is speculative, a token of the right kind but a disallowed value is fatal, otherwise the token is returned; never internal |
| Grammar.Clip | src/parser.ts:483-495 | the literal `num & 0x7FFF`: at most 0x7FFF, the number itself when it fits, and congruent to it modulo 2^15 |
| Grammar.Run | src/parser.ts:477-608 | a closure's value has the shape its rule produces, and a closure that emits nothing leaves the program alone |
| Grammar.ParseBoolean | src/parser.ts:426-432 | `parseBoolean` never changes the program and yields only a 0/1 operand |
| Grammar.ParseRegister | src/parser.ts:433-439 | `parseRegister` never changes the program and yields only a register operand |
| Grammar.LiteralAddress | src/parser.ts:482-496 | the numeric branch of an A instruction yields no value |
| Grammar.SymbolAddress | src/parser.ts:497-508 | the symbolic branch of an A instruction yields no value |
| Grammar.AddressLine | src/parser.ts:479-510 | an A instruction yields no value |
| Grammar.DestinationPart | src/parser.ts:514-522 | the destination prefix never changes the program and yields a destination field |
| Grammar.UnaryPart | src/parser.ts:527-539 | the unary alternative never changes the program and yields a unary description |
| Grammar.BinaryPart | src/parser.ts:541-554 | the binary alternative never changes the program and yields a binary description |
| Grammar.BinaryOperator | src/parser.ts:543-553 | after the first operand, the operator and second operand leave the program alone and yield a binary description |
| Grammar.BinarySecond | src/parser.ts:547-553 | a successful binary description is built from the operator and the second operand actually read |
| Grammar.ConstantPart | src/parser.ts:556-562 | the constant alternative never changes the program and yields a constant description |
| Grammar.JumpPart | src/parser.ts:573-580 | the jump suffix never changes the program and yields a jump field |
| Grammar.ComputeLine | src/parser.ts:512-588 | a C instruction yields no value |
| Grammar.ComputeOperation | src/parser.ts:524-588 | after the destination prefix, the rest of a C instruction yields no value |
| Grammar.ComputeFields | src/parser.ts:565-588 | after the operation, encoding and the jump suffix yield no value |
| Grammar.ComputeJump | src/parser.ts:572-587 | a failed jump suffix leaves the program as it was |
| Grammar.LabelLine | src/parser.ts:590-596 | a label declaration yields no value; when it fails it leaves the program alone and never with the internal error |
| Grammar.Optional | src/parser.ts:376-389 | `optional` yields a value of its rule's shape when the closure succeeded, and leaves the program alone for a rule that emits nothing |
| Grammar.Settle | src/parser.ts:381-388 | the settling of `optional` keeps the closure's program, and a value it yields is the closure's own result |
| Grammar.TryAlternatives | src/parser.ts:397-402 | the loop of `match` returns an index not below where it started, and a value of that alternative's shape |
| Grammar.NoAlternative | src/parser.ts:403-408 | when no alternative applies, `match` fails and leaves the program alone |
| Grammar.NoAlternativeConsumes | src/parser.ts:403-408 | the failure after the last alternative is speculative as written and whenever a buffer is open, internal otherwise; it consumes exactly one token: as written the next token of the current buffer, corrected the first token of the text the closed buffer gives back |
| Grammar.Attempt | src/parser.ts:397-402 | one turn of the loop of `match` returns a valid index and a value of that alternative's shape |
| Grammar.Match | src/parser.ts:391-409 | `match` returns the index of an alternative and a value that alternative produces |
| Grammar.AlternativeYields | src/parser.ts:391-409 | what an alternative produces is something its `match` may yield |
| Reading.OperandOf | src/parser.ts:426-448 | the reference reading of an operand (0 or 1, or a register name; another number or name is fatal, anything else speculative); its own contract says only that a reading needs a token, and `Reading.OperandReads` ties it to the parser |
| Reading.UnaryOf | src/parser.ts:527-539 | the reference reading of a unary operation; a reading takes two tokens that are there, tied to the parser by `Reading.UnaryPartReads` |
| Reading.BinaryOf | src/parser.ts:541-554 | the reference reading of a binary operation; a reading takes three tokens that are there, tied to the parser by `Reading.BinaryPartReads` |
| Reading.ConstantOf | src/parser.ts:556-562 | the reference reading of a lone operand; a reading takes a token that is there, tied to the parser by `Reading.ConstantPartReads` |
| Reading.FirstOperation | src/parser.ts:525-563 | the first operation alternative from i on that applies, in the order unary, binary, constant: it takes at least one token and no more than there are, and its failure is never internal |
| Reading.OperationOf | src/parser.ts:525-563 | the operation at the front takes at least one token and no more than there are, tied to the parser by `Reading.OperationReads` |
| Reading.DestinationOf | src/parser.ts:514-522 | the destination prefix takes no more tokens than there are, tied to the parser by `Reading.DestinationReads` |
| Reading.JumpOf | src/parser.ts:573-580 | the jump suffix takes no more tokens than there are, tied to the parser by `Reading.JumpReads` |
| Reading.ComputeOf | src/parser.ts:512-588 | the text of a C instruction, when there, takes at least one token and no more than there are, and its failure is never internal; tied to the parser by `Reading.ComputeLineReads` |
| Reading.OperandReads | src/parser.ts:441-448 | in either revision, the operand `match` fails exactly as `OperandOf` does, or yields its operand and takes exactly its one token; the program is unchanged |
| Reading.BooleanOperandOf | src/parser.ts:426-432 | on a number, `parseBoolean` answers what `OperandOf` reads, taking one token |
| Reading.RegisterOperandOf | src/parser.ts:433-439 | on an identifier, `parseRegister` answers what `OperandOf` reads, taking one token |
| Reading.UnaryPartReads | src/parser.ts:527-539 | in either revision, the unary alternative fails exactly as `UnaryOf` does (not an operator: speculative; `+ & \|`: fatal; then the operand's error), or yields `Unary(op, operand)` and takes exactly two tokens |
| Reading.BinaryPartReads | src/parser.ts:541-554 | in either revision, the binary alternative fails exactly as `BinaryOf` does, or yields `Binary(op, first, second)` and takes exactly three tokens |
| Reading.OperatorReads | src/parser.ts:543-553 | after the first operand: no operator is speculative, `!` is fatal, otherwise the second operand's error or the binary description, two more tokens taken |
| Reading.ConstantPartReads | src/parser.ts:556-562 | in either revision, the constant alternative fails exactly as `ConstantOf` does, or yields `Constant(operand)` and takes one token |
| Reading.AlternativeReads | src/parser.ts:525-563 | operation alternative i, run as a closure, answers what the i-th reference reading says and takes its width |
| Reading.OperationReads | src/parser.ts:525-563 | corrected, the operation `match` answers with the first of unary, binary, constant that applies, takes exactly its tokens, is fatal when the first one that does not step aside is fatal, and speculative when none applies; the program is unchanged |
| Reading.OperationsFrom | src/parser.ts:396-408 | corrected, the loop of the operation `match` from alternative i on reads `FirstOperation` from i on |
| Reading.DestinationReads | src/parser.ts:514-522 | corrected, `optional(dest =)` yields the table's field and takes two tokens, yields nothing and takes none when there is no `name =`, and is fatal for a name not in the table |
| Reading.JumpReads | src/parser.ts:573-580 | corrected, `optional(; jump)` yields the table's field and takes two tokens, yields nothing and takes none when there is no `; name`, and is fatal for a name not in the table |
| Reading.ComputeLineReads | src/parser.ts:512-588 | corrected, a C instruction whose text is there and whose operation the encoder accepts appends exactly one instruction with the destination, encoding and jump read and consumes the whole text; otherwise it fails with the reading's error, or fatally when the encoder refuses, and leaves the program alone |
| Reading.ComputeLineEmits | src/parser.ts:512-588 | the accepting case of `ComputeLineReads` |
| Reading.EmitsAfterDestination | src/parser.ts:524-587 | the accepting case once the destination has been read |
| Reading.ComputeLineRefuses | src/parser.ts:512-588 | the refusing cases of `ComputeLineReads` |
| Reading.OperationAndFieldsRead | src/parser.ts:524-587 | corrected, after the destination: the operation's error, a fatal refusal by the encoder or the jump suffix, or one appended C instruction with the tokens of operation and jump consumed |
| Reading.OperationAndFieldsRefuse | src/parser.ts:524-587 | the refusing cases of `OperationAndFieldsRead` |
| Reading.AlternativeStep | src/parser.ts:396-401 | one turn of the loop of `match`: a succeeding alternative is chosen with its value, a fatal one ends the loop, one that steps aside hands over to the next with the cursor restored |
| Reading.GivesUp | src/parser.ts:376-389 | a rule that fails softly and keeps its depth leaves `optional` with nothing and the cursor, buffers and program as they were |
| Reading.Takes | src/parser.ts:376-389 | a rule that succeeds leaves `optional` with its value, its cursor and its program |
| Reading.CorrectedGivesUp | src/parser.ts:376-389 | corrected, every rule that fails softly leaves `optional` with nothing and everything restored |
| Reading.OptionalSettles | src/parser.ts:376-389 | `optional` never fails speculatively |
| Reading.DeclineKeeps | src/parser.ts:376-389 | an `optional` that yields nothing leaves the program alone |
| Reading.MatchPicksFirst | src/parser.ts:391-409 | `match` answers with the first alternative that yields something under `optional`: a success (i, v) means alternative i yielded v and every earlier one nothing; a fatal error means some alternative was fatal after earlier ones yielded nothing; a speculative failure means every alternative yielded nothing |
| Reading.PicksFirstFrom | src/parser.ts:396-408 | the same for the loop of `match` from alternative j on |
| Reading.FirstYieldCons | src/parser.ts:396-401 | one more outcome in front of the loop: its answer is that outcome, or the rest's answer when it yielded nothing |
| Reading.AttemptOutcome | src/parser.ts:396-401 | one turn of the loop by what `optional` gave: an error ends it, a value is the answer unless the buffer cannot be closed, nothing goes on to the next alternative |
| Driver.SkipSeparators | src/parser.ts:466 | skipping blank lines keeps the buffer discipline, never changes the program and can fail only fatally |
| Driver.Lines | src/parser.ts:463-609 | the loop over lines never ends with the internal error |
| Driver.Line | src/parser.ts:468-608 | one line never ends with the internal error |
| Driver.LineEnd | src/parser.ts:599-608 | the separator-or-end step never ends with the internal error |
| Driver.Start | src/parser.ts:454-460 | `parse` starts with all tokens ahead, no buffer, no instructions, no labels and the placeholder -1 |
| Driver.ParseTokens | src/parser.ts:450-616 | `parse` never fails with the internal error, in either revision |
| Discipline.AdvancedTrans | src/parser.ts:297-331 | a later state of a later state is a later state: the cursor moves forward and no buffered token is lost |
| Discipline.PurgeNested | src/parser.ts:315-331 | a successful rollback inside a look-ahead hands the tokens to the outer buffer without losing any |
| Discipline.RestoreNested | src/parser.ts:315-331 | a failing rollback of the buffer just opened restores the cursor exactly as it was before the look-ahead |
| Discipline.RunDisciplined | src/parser.ts:376-608 | every closure moves the cursor forward, never raises the internal error, changes the program only when it succeeds and consumes a token when it does; in the corrected parser it leaves as many buffers open as it found |
| Discipline.OptionalDisciplined | src/parser.ts:376-389 | `optional` keeps that discipline, fails only fatally, consumes a token when it yields, keeps the program when it yields nothing, and in the corrected parser restores the cursor exactly when it yields nothing |
| Discipline.MatchDisciplined | src/parser.ts:391-409 | `match` keeps the discipline and consumes a token when it succeeds |
| Discipline.TryAlternativesDisciplined | src/parser.ts:397-402 | the loop of `match` keeps the discipline |
| Discipline.AttemptDisciplined | src/parser.ts:397-402 | one turn of the loop of `match` keeps the discipline |
| Discipline.NoAlternativeDisciplined | src/parser.ts:403-408 | the failure after the last alternative keeps the discipline; only the corrected parser closes the buffer it opened |
| Discipline.LabelLineDisciplined | src/parser.ts:590-596 | a label declaration keeps the discipline |
| Discipline.ComputeLineDisciplined | src/parser.ts:512-588 | a C instruction keeps the discipline |
| Discipline.AddressLineDisciplined | src/parser.ts:479-510 | an A instruction keeps the discipline |
| Effects.ParseBooleanReads | src/parser.ts:426-432 | `parseBoolean` gives 0 or 1 for those numbers, fatal for any other number, speculative for anything else |
| Effects.ParseRegisterReads | src/parser.ts:433-439 | `parseRegister` gives D, A or M for those names, fatal for any other identifier, speculative for anything else |
| Effects.LiteralAddressReads | src/parser.ts:482-496 | the numeric branch applies iff the next token is a number, and then appends an A instruction holding the clipped value |
| Effects.SymbolAddressReads | src/parser.ts:497-508 | the symbolic branch applies iff the next token is an identifier, and then appends an A instruction with that name's pointer |
| Effects.DestinationPartReads | src/parser.ts:514-522 | the destination prefix is an identifier then `=`; it yields the table's field, is fatal for a name not in the table, and is speculative otherwise |
| Effects.JumpPartReads | src/parser.ts:573-580 | the jump suffix is `;` then an identifier; it yields the table's field, is fatal for a name not in the table, and is speculative otherwise |
| Effects.LabelLineApplies | src/parser.ts:590-596 | a label declaration succeeds iff the tokens are `(`, an identifier and `)` |
| Effects.LabelLineRejects | src/parser.ts:590-596 | a label declaration fails only speculatively and leaves the program alone |
| Effects.LabelLineDeclares | src/parser.ts:590-596 | a successful declaration maps the name to the current instruction count and changes nothing else |
| Effects.RunEffect | src/parser.ts:477-596 | a successful closure appends one A instruction, appends one C instruction whose operation field is the encoder's answer, declares a label, or changes nothing, according to its rule |
| Effects.OptionalEffect | src/parser.ts:376-389 | a successful `optional` changed the program as its rule does |
| Effects.MatchEffect | src/parser.ts:391-409 | a successful `match` changed the program as the alternative it reports does |
| Effects.ComputeJumpEffect | src/parser.ts:572-587 | a C instruction appends exactly one instruction with the destination, the encoded operation and the jump field (none when the suffix is absent) |
| Effects.ReferenceKeeps | src/parser.ts:497-508 | referencing a name keeps the placeholder numbering: a new name gets the next placeholder and a known one its pointer |
| Effects.EffectKeeps | src/parser.ts:477-596 | every closure's change to the program keeps the placeholder numbering |
| Effects.LinesKeep | src/parser.ts:463-609 | the loop over lines keeps the placeholder numbering |
| Effects.ParseKeeps | src/parser.ts:450-616 | the symbol table `parse` returns starts with the reserved symbols and then holds each new name once, with placeholder -1-i for the i-th, in first-use order; labels point into the program or just past it; every A instruction holds an address or an allocated placeholder |
| Parsing.Parser.constructor | src/parser.ts:273-285 | a fresh parser has all tokens ahead, no pushed-back tokens, no buffer and no last token |
| Parsing.Parser.NextTokenSimple | src/parser.ts:287-295 | updates the fields in place exactly as `TokenCursor.NextTokenSimple` says |
| Parsing.Parser.NextToken | src/parser.ts:297-309 | updates the fields in place exactly as `TokenCursor.NextToken` says |
| Parsing.Parser.LookAhead | src/parser.ts:311-313 | pushes a buffer exactly as `TokenCursor.LookAhead` says |
| Parsing.Parser.Rollback | src/parser.ts:315-331 | pops and merges or restores exactly as `TokenCursor.Rollback` says, failing internally without a buffer |
| Parsing.Parser.Expect | src/parser.ts:340-374 | consumes and checks a token exactly as `TokenCursor.Expect` says |
| Parsing.Parser.Optional | src/parser.ts:376-389 | look-ahead, closure, and a rollback that purges on success and restores on failure, as `Grammar.Optional` says |
| Parsing.Parser.Match | src/parser.ts:391-409 | the loop over the alternatives, each under `optional`, then the failing token, as `Grammar.Match` says |
| Parsing.Parser.Alternative | src/parser.ts:396-401 | one turn of the loop of `match`, in place: alternative i under `optional` either answers for the whole loop, as `Grammar.TryAlternatives` from i says, or hands over to alternative i + 1 with the loop's answer unchanged |
| Parsing.Parser.NoAlternative | src/parser.ts:403-408 | the failing end of `match` (closing its buffer first in the corrected parser, then taking one token), as `Grammar.NoAlternative` says |
| Parsing.Parser.Run | src/parser.ts:477-608 | runs the closure of a rule as `Grammar.Run` says |
| Parsing.Parser.Single | src/parser.ts:466-470 | the single-`expect` closures, as `Grammar.Single` says |
| Parsing.Parser.ParseBoolean | src/parser.ts:426-432 | as `Grammar.ParseBoolean` says |
| Parsing.Parser.ParseRegister | src/parser.ts:433-439 | as `Grammar.ParseRegister` says |
| Parsing.Parser.LiteralAddress | src/parser.ts:482-496 | as `Grammar.LiteralAddress` says |
| Parsing.Parser.SymbolAddress | src/parser.ts:497-508 | allocates a placeholder for a new name and appends the A instruction, as `Grammar.SymbolAddress` says |
| Parsing.Parser.AddressLine | src/parser.ts:479-510 | as `Grammar.AddressLine` says |
| Parsing.Parser.DestinationPart | src/parser.ts:514-522 | as `Grammar.DestinationPart` says |
| Parsing.Parser.UnaryPart | src/parser.ts:527-539 | as `Grammar.UnaryPart` says |
| Parsing.Parser.BinaryPart | src/parser.ts:541-554 | as `Grammar.BinaryPart` says |
| Parsing.Parser.ConstantPart | src/parser.ts:556-562 | as `Grammar.ConstantPart` says |
| Parsing.Parser.JumpPart | src/parser.ts:573-580 | as `Grammar.JumpPart` says |
| Parsing.Parser.ComputeLine | src/parser.ts:512-588 | as `Grammar.ComputeLine` says |
| Parsing.Parser.EncodeAndAppend | src/parser.ts:570-587 | encodes the operation, reads the jump suffix and appends the C instruction, as `Grammar.ComputeFields` says |
| Parsing.Parser.FlagsForOperation | src/parser.ts:570 | the encoder of the parser's revision; every refusal is fatal; with the corrected encoder, an accepted field makes the Hack ALU compute what the expression denotes, for every value of D, A and M |
| Parsing.Parser.LabelLine | src/parser.ts:590-596 | records the label at the current instruction count, as `Grammar.LabelLine` says |
| Parsing.Parse | src/parser.ts:450-616 | the imperative loop of `parse` over its tokens returns exactly what `Driver.ParseTokens` says |
| Parsing.SkipOne | src/parser.ts:466 | one turn of the blank-line loop: fatal error, another separator, or done |
| Parsing.SkipBlankLines | src/parser.ts:466 | the blank-line loop on the parser's fields ends exactly where `Driver.SkipSeparators` says, with its result |
| Parsing.ReadLine | src/parser.ts:468-608 | the rest of one turn of the loop: either the loop ends with the result `Driver.Line` gives, or it goes on, past at least one token, to lines that give that same result |
| Parsing.LineSteps | src/parser.ts:468-597 | the outcome of a line from its first steps: an error at the end-of-input check, the end of input, or what the instruction and its terminator give |
| Parsing.LineEndSteps | src/parser.ts:599-608 | the outcome after an instruction: its error, the terminator's error, the end of input, or the next line, past at least one token |
| Compile.BuildReverseLookup | src/compile.ts:11-28 | the loop over the symbol table's keys builds exactly `Compile.Allocation`: labels map to their index, other names to consecutive free addresses |
| Compile.AllocationResolves | src/compile.ts:11-28 | after the reserved symbols, the lookup is defined exactly on the allocated placeholders; each maps to its label's index or the next free address, and the next free address counts the variables |
| Compile.VariablesApart | src/compile.ts:21-27 | two different variables get two different addresses, increasing in first-use order, from the first unreserved address on |
| Compile.Patch | src/compile.ts:30-38 | patches the array in place: it succeeds iff every placeholder has an entry, then every placeholder is replaced by its address and nothing else changes; otherwise it fails internally |
| Compile.Compile | src/compile.ts:8-44 | `compile` returns exactly `Compile.Compiled` |
| Compile.CompileNeverBreaks | src/compile.ts:30-38 | `compile` fails iff `parse` fails and with its error: the internal "symbol table broken" error cannot happen |
| Compile.PlaceholdersResolve | src/compile.ts:11-38 | every A instruction that `parse` returns can be resolved by the reverse lookup |
| Compile.ResolvedAddress | src/compile.ts:11-38 | a resolved A instruction for the i-th new name holds its label's index or its variable address; every other instruction is unchanged |
| Compile.CompiledAddresses | src/compile.ts:8-44 | for every instruction of the parsed program, the compiled one is the same or, for a placeholder, the label's index or the variable's address |
| Compile.CompiledResolves | src/compile.ts:8-44 | the compiled program is the parsed one with every instruction resolved |
| Compile.CompiledAddressesNonNegative | src/compile.ts:8-44 | no compiled A instruction holds a negative address |
| BinaryTranslate.ComputeWord | src/binary-translate.ts:33-38 | a C instruction's word lies between 0xE000 and 0xFFFF |
| BinaryTranslate.Binary | src/binary-translate.ts:18-22 | the bit string has the requested width |
| BinaryTranslate.BinaryDigits | src/binary-translate.ts:18-22 | every character written is `0` or `1` |
| BinaryTranslate.WriteUint16BinaryString | src/binary-translate.ts:18-22 | the mask loop appends exactly the sixteen low bits of the value, most significant first |
| BinaryTranslate.BinaryRoundTrip | src/binary-translate.ts:18-22 | reading the bits back gives the value modulo 2^width |
| BinaryTranslate.Translate | src/binary-translate.ts:24-44 | the loop over instructions produces exactly `BinaryTranslate.Listing` |
| BinaryTranslate.ListingLength | src/binary-translate.ts:24-44 | the listing has 17 characters per instruction |
| BinaryTranslate.ListingReadsBack | src/binary-translate.ts:24-44 | reading the listing line by line gives each instruction's word modulo 2^16 |
| BinaryTranslate.WordsAt | src/binary-translate.ts:29-41 | the i-th word read back is the i-th instruction's word modulo 2^16 |
| BinaryTranslate.ComputeWordDecodes | src/binary-translate.ts:7-12 | a C instruction's word starts with three ones and its fields sit at the offsets 6, 3 and 0 |
| BinaryTranslate.WordDecodes | src/binary-translate.ts:29-41 | an instruction's word decodes back to the instruction when it is a C instruction or an address below 2^15 |
| BinaryTranslate.ListingDecodes | src/binary-translate.ts:24-44 | when every address is below 2^15, decoding the listing line by line gives back the program |
| Findings.ReportFromFreshBuffer | src/parser.ts:403-408 | when match's own buffer is still empty, the failure is speculative, takes exactly the next token and leaves the program alone; as written that token stays in match's buffer, which stays open; corrected it joins the enclosing buffer |
| Findings.FailedMatchLeaksBuffer | src/parser.ts:391-409 | as written, a `match` with no applicable alternative leaves its own buffer open, holding the token it consumed |
| Findings.FailedMatchClosesBuffer | src/parser.ts:391-409 | corrected, the failed `match` closes its buffer and hands the token to the enclosing one |
| Findings.AddressOptionAtMinus | src/parser.ts:376-409 | as written, an A instruction `@-…` fails under `optional`, which then pops the inner buffer: the `@` is lost and the next alternative starts at `-` |
| Findings.CorrectedAddressOptionAtMinus | src/parser.ts:376-409 | corrected, the failed A instruction gives back every token, `@` included |
| Findings.AtMinusDAssemblesAsNegateD | src/parser.ts:450-616 | as written, the one-line program `@-D` assembles to the single C instruction `-D` |
| Findings.AtMinusDIsRejected | src/parser.ts:450-616 | corrected, `@-D` is rejected |

## Left out

- The lexer (Tokenizr rules, comments, whitespace) is not modelled. `Parse` starts from the token sequence. Number tokens are natural numbers, as `parseInt` of a digit string gives. A C instruction's `-` etc. are operation tokens.
- Reading the file (`fs.readFile`), the `async` wrappers, and `src/main.ts` and `src/tools.ts` are left out.
- `src/hackConfig.ts` is not part of this model. The reserved symbols, their key order and the first unreserved address are parameters. `maxNumberLiteral` is the Hack limit 0x7FFF.
- Error messages, positions (`currentLine`, `currentCol`, `errorPrefix`), the literal-overflow console warning and debug logging are left out. An error keeps only its kind, which is all that `optional` and `match` look at. The last-checked token is kept as a field.
- `fatal` is not a separate member. Every `p.fatal(…)` is a `Failure(Fatal)` at its call site.
- The "could not select operation" branch of `parse` cannot be reached. The `operation` variable is set by every alternative that succeeds, so the model has no branch for it.
- The JavaScript dictionaries are maps, with a separate sequence for their key order, which `for … in` follows. Keys inherited from `Object.prototype` (`toString`, `constructor`, …) are not modelled. In the source, a label or mnemonic with such a name would find an inherited value.
- Numbers are unbounded integers. `num & maxNumberLiteral` equals `num % 2^15` for the non-negative numbers the lexer produces. Precision loss above 2^53 is not modelled.
- `SmartBuffer` is a string that grows. `writeInt8`/`writeUInt8` of the character codes append the characters.
- Driver.Lines: its own contract states only that the internal error never escapes. What the loop produces is stated by `Effects.ParseKeeps`, `Compile.CompiledAddresses` and the traces in `Findings`.
- Driver.Line: as for `Driver.Lines`, its own contract only excludes the internal error.
- Driver.LineEnd: as for `Driver.Lines`, its own contract only excludes the internal error.
- Grammar.UnaryPart: its own contract states only the shape of the value and that the program is unchanged. What it reads and how many tokens it takes is stated by `Reading.UnaryPartReads`.
- Grammar.BinaryPart: as for `Grammar.UnaryPart`; what it reads is stated by `Reading.BinaryPartReads`.
- Grammar.BinaryOperator: as for `Grammar.UnaryPart`; what it reads is stated by `Reading.OperatorReads`.
- Grammar.ConstantPart: as for `Grammar.UnaryPart`; what it reads is stated by `Reading.ConstantPartReads`.
- Grammar.ComputeLine: its own contract states only that no value is yielded. What it reads and appends is stated by `Reading.ComputeLineReads`, and the discipline by `Discipline.ComputeLineDisciplined`.
- Grammar.ComputeOperation: as for `Grammar.ComputeLine`; what it reads is stated by `Reading.OperationAndFieldsRead`.
- Effects.RunEffect: states only the kind of change to the program. The values read are stated by `Effects.LiteralAddressReads`, `Effects.SymbolAddressReads`, `Reading.ComputeLineReads` and `Effects.LabelLineDeclares`.
- Parsing.Parser.UnaryPart: proved equal to `Grammar.UnaryPart`; what that reads is stated in `Reading`.
- Parsing.Parser.BinaryPart: proved equal to `Grammar.BinaryPart`; what that reads is stated in `Reading`.
- Parsing.Parser.ConstantPart: proved equal to `Grammar.ConstantPart`; what that reads is stated in `Reading`.
- Parsing.Parser.ComputeLine: proved equal to `Grammar.ComputeLine`; what that reads is stated in `Reading`.
- Reading.OperationReads: holds for the corrected parser only. As written, a soft failure inside a nested `match` loses tokens (the first finding below), so the as-written parser does not read `OperationOf`.
- Reading.ComputeLineReads: corrected parser only, for the same reason.
- Parsing.Parser.FlagsForOperation: ALU soundness is promised for the corrected encoder only; the as-written encoder miscompiles `A+A` and `D+0` (the second and third findings below).
- Grammar.ComputeJump: its own contract states only that a failure keeps the program. The instruction it appends is stated by `Effects.ComputeJumpEffect`.

## Findings

| source | as written | input that shows it | evidently intended | confidence | as-written member | corrected member |
|---|---|---|---|---|---|---|
| src/parser.ts:391-409 | when no alternative applies, `match` throws without popping the look-ahead buffer it pushed. The enclosing `optional` then rolls back the wrong buffer: it restores only the tokens `match` took and leaks its own buffer, so tokens taken before the `match` are lost | the line `@-D`: the A-instruction alternative fails at `-`, the `@` is dropped, and the line assembles as the C instruction `-D` | a failed `match` gives back everything it consumed, so `@-D` is rejected | high; not executed | Findings.AtMinusDAssemblesAsNegateD | Findings.AtMinusDIsRejected |
| src/parser.ts:186-196 | only D,D and A,M / M,A are rejected as operand pairs. A,A and M,M pass and encode as if the first operand were D | `A+A`: flags f, which the ALU evaluates as D+A | any pair without exactly one D is fatal | high; not executed | Encoder.SameBankOperandsMiscompile | Encoder.EncodingIsSound |
| src/parser.ts:175-185 | a constant second operand is not inspected: 0 and 1 both get the flags for 1 | `D+0`: flags of `D+1` | `D+0` and `D-0` rejected, as the unary `-0` is | high; not executed | Encoder.ConstantZeroOperandMiscompiles | Encoder.CorrectedAcceptance |
