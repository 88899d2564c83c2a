/** The grammar of `parse`: each closure it hands to `optional` and `match`
    becomes a `Rule`, each list of alternatives a `Choice`, and `optional`,
    `match` and the rules are one family of mutually recursive functions over
    the token cursor and the program being assembled. Where the source
    misbehaves (a failed `match` leaves its buffer open; the compute encoder
    accepts operand pairs the ALU cannot compute), the `Revision` parameter
    selects the code as written or the corrected code. The `Parser` class
    carries the revision as a field, and `parse` and `compile` take it as a
    parameter. */
module Grammar {
  import opened Base
  import opened Instructions
  import opened TokenCursor
  import Encoder

  datatype Revision = AsWritten | Corrected

  /** The closures of `parse`, `parseRegisterOrBool` and the helpers they call. */
  datatype Rule =
    | ExpectSeparator       // () => p.expect("separator")
    | ExpectEnd             // () => { p.expect("EOF"); reachedEnd = true }
    | BooleanOperand        // parseBoolean
    | RegisterOperand       // parseRegister
    | NumberLiteral         // `@` followed by digits
    | SymbolReference       // `@` followed by a name
    | AddressInstruction    // the A instruction
    | Destination           // `dest =`
    | UnaryExpression
    | BinaryExpression
    | ConstantExpression
    | JumpSuffix            // `; jump`
    | ComputeInstruction    // the C instruction
    | LabelDeclaration      // `(LABEL)`

  /** The alternative lists given to `match`, by the name the source gives them. */
  datatype Choice =
    | NextInstruction       // "next instruction"
    | LabelOrNumber         // "label or raw number"
    | OperationChoice       // "operation"
    | RegisterOrConstant    // "register or constant"
    | SeparatorOrEnd        // "separator or eof"

  function Alternatives(choice: Choice): (alts: seq<Rule>)
    ensures forall r | r in alts :: Height(r) <= ChoiceHeight(choice)
    ensures forall r | r in alts :: Emits(r) ==> ChoiceEmits(choice)
  {
    match choice
    case NextInstruction => [AddressInstruction, ComputeInstruction, LabelDeclaration]
    case LabelOrNumber => [NumberLiteral, SymbolReference]
    case OperationChoice => [UnaryExpression, BinaryExpression, ConstantExpression]
    case RegisterOrConstant => [BooleanOperand, RegisterOperand]
    case SeparatorOrEnd => [ExpectSeparator, ExpectEnd]
  }

  /** Nesting depth of a rule: it only calls `optional` and `match` on lower rules. */
  function Height(rule: Rule): nat
  {
    match rule
    case UnaryExpression => 1
    case BinaryExpression => 1
    case ConstantExpression => 1
    case AddressInstruction => 1
    case ComputeInstruction => 2
    case _ => 0
  }

  function ChoiceHeight(choice: Choice): nat
  {
    match choice
    case NextInstruction => 2
    case OperationChoice => 1
    case _ => 0
  }

  /** What a closure leaves in the variables of its caller. */
  datatype Value =
    | NoResult
    | OperandResult(operand: Operand)
    | ExpressionResult(desc: OperationDescription)
    | FieldResult(field: bv3)

  /** The shape of value each rule yields when it succeeds. */
  predicate Produces(rule: Rule, v: Value)
  {
    match rule
    case BooleanOperand => v.OperandResult? && !v.operand.Reg?
    case RegisterOperand => v.OperandResult? && v.operand.Reg?
    case Destination => v.FieldResult?
    case JumpSuffix => v.FieldResult?
    case UnaryExpression => v.ExpressionResult? && v.desc.Unary?
    case BinaryExpression => v.ExpressionResult? && v.desc.Binary?
    case ConstantExpression => v.ExpressionResult? && v.desc.Constant?
    case _ => v.NoResult?
  }

  /** The rules whose success changes the program being assembled. */
  predicate Emits(rule: Rule)
  {
    || rule == NumberLiteral || rule == SymbolReference || rule == AddressInstruction
    || rule == ComputeInstruction || rule == LabelDeclaration
  }

  /** The alternative lists with a rule that changes the program. */
  predicate ChoiceEmits(choice: Choice)
  {
    choice == NextInstruction || choice == LabelOrNumber
  }

  /** The local state of `parse`: the instruction list, the symbol table with
      the insertion order of its keys, the jump table and the next placeholder
      (`currentUnassignedLabel`). */
  datatype Assembly = Assembly(
    instructions: seq<Instruction>,
    symbols: map<string, int>,
    symbolOrder: seq<string>,
    jumps: map<string, int>,
    nextPlaceholder: int)

  datatype Step<T> = Step(result: Result<T>, cursor: Cursor, asm: Assembly)

  /** The register names: `Register[id]` is defined exactly for these. */
  const RegisterNames: map<string, Register> := map["D" := D, "A" := A, "M" := M]

  /** `maxNumberLiteral`: a literal keeps its low 15 bits. */
  const MaxNumberLiteral: nat := 0x7FFF

  /** `num & maxNumberLiteral` for the non-negative value of a digit string. */
  function Clip(num: nat): (r: nat)
    ensures r <= MaxNumberLiteral
    ensures num <= MaxNumberLiteral ==> r == num
    ensures (num - r) % (MaxNumberLiteral + 1) == 0
  {
    num % (MaxNumberLiteral + 1)
  }

  function Emit(asm: Assembly, instruction: Instruction): Assembly
  {
    asm.(instructions := asm.instructions + [instruction])
  }

  /** `@name`: a name seen for the first time gets the next placeholder, which
      then counts down; a known name reuses its pointer. */
  function Reference(asm: Assembly, name: string): Assembly
  {
    if name in asm.symbols then
      Emit(asm, Address(asm.symbols[name]))
    else
      Emit(asm.(symbols := asm.symbols[name := asm.nextPlaceholder],
                symbolOrder := asm.symbolOrder + [name],
                nextPlaceholder := asm.nextPlaceholder - 1),
           Address(asm.nextPlaceholder))
  }

  /** `jumpTable[label] = instructionList.length` */
  function Declare(asm: Assembly, name: string): Assembly
  {
    asm.(jumps := asm.jumps[name := |asm.instructions|])
  }

  function Encode(desc: OperationDescription, revision: Revision): Result<bv7>
  {
    match revision
    case AsWritten => Encoder.FlagsForOperationAsWritten(desc)
    case Corrected => Encoder.FlagsForOperation(desc)
  }

  /** A rule expecting a single token of one kind. */
  function Single(c: Cursor, asm: Assembly, kind: Kind): Step<Value>
  {
    var e := Expect(c, kind, AnyValue);
    Step(if e.result.Success? then Success(NoResult) else Failure(e.result.error), e.cursor, asm)
  }

  /** Running a closure: the rule's own function. */
  function Run(rule: Rule, c: Cursor, asm: Assembly, revision: Revision): (s: Step<Value>)
    ensures s.result.Success? ==> Produces(rule, s.result.value)
    ensures !Emits(rule) ==> s.asm == asm
    decreases Height(rule), 0, 3
  {
    match rule
    case ExpectSeparator => Single(c, asm, SeparatorKind)
    case ExpectEnd => Single(c, asm, EOFKind)
    case BooleanOperand => ParseBoolean(c, asm)
    case RegisterOperand => ParseRegister(c, asm)
    case NumberLiteral => LiteralAddress(c, asm)
    case SymbolReference => SymbolAddress(c, asm)
    case AddressInstruction => AddressLine(c, asm, revision)
    case Destination => DestinationPart(c, asm)
    case UnaryExpression => UnaryPart(c, asm, revision)
    case BinaryExpression => BinaryPart(c, asm, revision)
    case ConstantExpression => ConstantPart(c, asm, revision)
    case JumpSuffix => JumpPart(c, asm)
    case ComputeInstruction => ComputeLine(c, asm, revision)
    case LabelDeclaration => LabelLine(c, asm)
  }

  /** parseBoolean: a number token, fatal unless it is 0 or 1. */
  function ParseBoolean(c: Cursor, asm: Assembly): (s: Step<Value>)
    ensures s.asm == asm
    ensures s.result.Success? ==> Produces(BooleanOperand, s.result.value)
  {
    var e := Expect(c, NumberKind, AnyValue);
    if e.result.Failure? then Step(Failure(e.result.error), e.cursor, asm)
    else if e.result.value.value > 1 then Step(Failure(Fatal), e.cursor, asm)
    else Step(Success(OperandResult(if e.result.value.value == 0 then Zero else One)), e.cursor, asm)
  }

  /** parseRegister: an identifier, fatal unless it names a register. */
  function ParseRegister(c: Cursor, asm: Assembly): (s: Step<Value>)
    ensures s.asm == asm
    ensures s.result.Success? ==> Produces(RegisterOperand, s.result.value)
  {
    var e := Expect(c, IdentifierKind, AnyValue);
    if e.result.Failure? then Step(Failure(e.result.error), e.cursor, asm)
    else if e.result.value.name !in RegisterNames then Step(Failure(Fatal), e.cursor, asm)
    else Step(Success(OperandResult(Reg(RegisterNames[e.result.value.name]))), e.cursor, asm)
  }

  /** `@` digits: appends the clipped literal. */
  function LiteralAddress(c: Cursor, asm: Assembly): (s: Step<Value>)
    ensures s.result.Success? ==> s.result.value == NoResult
  {
    var e := Expect(c, NumberKind, AnyValue);
    if e.result.Failure? then Step(Failure(e.result.error), e.cursor, asm)
    else Step(Success(NoResult), e.cursor, Emit(asm, Address(Clip(e.result.value.value))))
  }

  /** `@` name: appends the name's pointer, allocating a placeholder if new. */
  function SymbolAddress(c: Cursor, asm: Assembly): (s: Step<Value>)
    ensures s.result.Success? ==> s.result.value == NoResult
  {
    var e := Expect(c, IdentifierKind, AnyValue);
    if e.result.Failure? then Step(Failure(e.result.error), e.cursor, asm)
    else Step(Success(NoResult), e.cursor, Reference(asm, e.result.value.name))
  }

  /** The A instruction: `@` then a literal or a name. */
  function AddressLine(c: Cursor, asm: Assembly, revision: Revision): (s: Step<Value>)
    ensures s.result.Success? ==> s.result.value == NoResult
    decreases 1, 0, 0
  {
    var e := Expect(c, LoadMarkerKind, AnyValue);
    if e.result.Failure? then Step(Failure(e.result.error), e.cursor, asm)
    else
      var m := Match(LabelOrNumber, e.cursor, asm, revision);
      Step(if m.result.Success? then Success(NoResult) else Failure(m.result.error), m.cursor, m.asm)
  }

  /** `dest =`: fatal when the name before `=` is not a destination mnemonic. */
  function DestinationPart(c: Cursor, asm: Assembly): (s: Step<Value>)
    ensures s.asm == asm
    ensures s.result.Success? ==> Produces(Destination, s.result.value)
  {
    var e := Expect(c, IdentifierKind, AnyValue);
    if e.result.Failure? then Step(Failure(e.result.error), e.cursor, asm)
    else
      var assign := Expect(e.cursor, AssignmentKind, AnyValue);
      if assign.result.Failure? then Step(Failure(assign.result.error), assign.cursor, asm)
      else if e.result.value.name !in DestinationMnemonics then Step(Failure(Fatal), assign.cursor, asm)
      else Step(Success(FieldResult(DestinationMnemonics[e.result.value.name])), assign.cursor, asm)
  }

  /** A unary operation: `!` or `-` (any other operator is fatal), then an operand. */
  function UnaryPart(c: Cursor, asm: Assembly, revision: Revision): (s: Step<Value>)
    ensures s.asm == asm
    ensures s.result.Success? ==> Produces(UnaryExpression, s.result.value)
    decreases 1, 0, 0
  {
    var e := Expect(c, OperationKind, UnaryOperators);
    if e.result.Failure? then Step(Failure(e.result.error), e.cursor, asm)
    else
      var m := Match(RegisterOrConstant, e.cursor, asm, revision);
      if m.result.Failure? then Step(Failure(m.result.error), m.cursor, m.asm)
      else Step(Success(ExpressionResult(Unary(e.result.value.op, m.result.value.1.operand))), m.cursor, m.asm)
  }

  /** A binary operation: operand, an operator other than `!` (`!` is fatal), operand. */
  function BinaryPart(c: Cursor, asm: Assembly, revision: Revision): (s: Step<Value>)
    ensures s.asm == asm
    ensures s.result.Success? ==> Produces(BinaryExpression, s.result.value)
    decreases 1, 0, 2
  {
    BinaryOperator(Match(RegisterOrConstant, c, asm, revision), revision)
  }

  /** The binary operation once its first operand has been matched. */
  function BinaryOperator(first: Step<(nat, Value)>, revision: Revision): (s: Step<Value>)
    requires first.result.Success? ==> first.result.value.1.OperandResult?
    ensures s.asm == first.asm
    ensures s.result.Success? ==> Produces(BinaryExpression, s.result.value)
    decreases 1, 0, 1
  {
    if first.result.Failure? then Step(Failure(first.result.error), first.cursor, first.asm)
    else
      var e := Expect(first.cursor, OperationKind, BinaryOperators);
      if e.result.Failure? then Step(Failure(e.result.error), e.cursor, first.asm)
      else
        var second := Match(RegisterOrConstant, e.cursor, first.asm, revision);
        BinarySecond(first.result.value.1.operand, e.result.value.op, second)
  }

  /** The binary operation once both operands have been matched. */
  function BinarySecond(first: Operand, op: Operation, second: Step<(nat, Value)>): (s: Step<Value>)
    requires second.result.Success? ==> second.result.value.1.OperandResult?
    ensures s.asm == second.asm
    ensures s.result.Success? ==>
      second.result.Success? && s.result.value == ExpressionResult(Binary(op, first, second.result.value.1.operand))
  {
    if second.result.Failure? then Step(Failure(second.result.error), second.cursor, second.asm)
    else Step(Success(ExpressionResult(Binary(op, first, second.result.value.1.operand))), second.cursor, second.asm)
  }

  /** A lone operand. */
  function ConstantPart(c: Cursor, asm: Assembly, revision: Revision): (s: Step<Value>)
    ensures s.asm == asm
    ensures s.result.Success? ==> Produces(ConstantExpression, s.result.value)
    decreases 1, 0, 0
  {
    var m := Match(RegisterOrConstant, c, asm, revision);
    if m.result.Failure? then Step(Failure(m.result.error), m.cursor, m.asm)
    else Step(Success(ExpressionResult(Constant(m.result.value.1.operand))), m.cursor, m.asm)
  }

  /** `; jump`: fatal when the name after `;` is not a jump mnemonic. */
  function JumpPart(c: Cursor, asm: Assembly): (s: Step<Value>)
    ensures s.asm == asm
    ensures s.result.Success? ==> Produces(JumpSuffix, s.result.value)
  {
    var e := Expect(c, JumpKind, AnyValue);
    if e.result.Failure? then Step(Failure(e.result.error), e.cursor, asm)
    else
      var name := Expect(e.cursor, IdentifierKind, AnyValue);
      if name.result.Failure? then Step(Failure(name.result.error), name.cursor, asm)
      else if name.result.value.name !in JumpMnemonics then Step(Failure(Fatal), name.cursor, asm)
      else Step(Success(FieldResult(JumpMnemonics[name.result.value.name])), name.cursor, asm)
  }

  /** The C instruction: an optional destination, an operation, its encoding
      (whose refusal is fatal), an optional jump; appends one instruction. */
  function ComputeLine(c: Cursor, asm: Assembly, revision: Revision): (s: Step<Value>)
    ensures s.result.Success? ==> s.result.value == NoResult
    decreases 2, 0, 2
  {
    ComputeOperation(Optional(Destination, c, asm, revision), revision)
  }

  /** The C instruction once the optional destination has been tried. */
  function ComputeOperation(d: Step<Option<Value>>, revision: Revision): (s: Step<Value>)
    requires d.result.Success? && d.result.value.Some? ==> d.result.value.value.FieldResult?
    ensures s.result.Success? ==> s.result.value == NoResult
    decreases 2, 0, 1
  {
    if d.result.Failure? then Step(Failure(d.result.error), d.cursor, d.asm)
    else
      var dest := if d.result.value.Some? then d.result.value.value.field else DestNone;
      ComputeFields(dest, Match(OperationChoice, d.cursor, d.asm, revision), revision)
  }

  /** The C instruction once its operation has been matched: the encoding, then
      the optional jump. */
  function ComputeFields(dest: bv3, m: Step<(nat, Value)>, revision: Revision): (s: Step<Value>)
    requires m.result.Success? ==> m.result.value.1.ExpressionResult?
    ensures s.result.Success? ==> s.result.value == NoResult
    decreases 2, 0, 0
  {
    if m.result.Failure? then Step(Failure(m.result.error), m.cursor, m.asm)
    else
      var flags := Encode(m.result.value.1.desc, revision);
      if flags.Failure? then Step(Failure(flags.error), m.cursor, m.asm)
      else ComputeJump(dest, flags.value, Optional(JumpSuffix, m.cursor, m.asm, revision))
  }

  /** The C instruction once the optional jump has been tried: it is appended. */
  function ComputeJump(dest: bv3, flags: bv7, j: Step<Option<Value>>): (s: Step<Value>)
    requires j.result.Success? && j.result.value.Some? ==> j.result.value.value.FieldResult?
    ensures s.result.Failure? ==> s.asm == j.asm
  {
    if j.result.Failure? then Step(Failure(j.result.error), j.cursor, j.asm)
    else
      var jump := if j.result.value.Some? then j.result.value.value.field else JumpNone;
      Step(Success(NoResult), j.cursor, Emit(j.asm, Compute(dest, flags, jump)))
  }

  /** `(LABEL)`: records the index the next instruction will have. */
  function LabelLine(c: Cursor, asm: Assembly): (s: Step<Value>)
    ensures s.result.Success? ==> s.result.value == NoResult
    ensures s.result.Failure? ==> s.asm == asm && s.result.error != Internal
  {
    var open := Expect(c, OpenDeclarationKind, AnyValue);
    if open.result.Failure? then Step(Failure(open.result.error), open.cursor, asm)
    else
      var id := Expect(open.cursor, IdentifierKind, AnyValue);
      if id.result.Failure? then Step(Failure(id.result.error), id.cursor, asm)
      else
        var close := Expect(id.cursor, CloseDeclarationKind, AnyValue);
        if close.result.Failure? then Step(Failure(close.result.error), close.cursor, asm)
        else
          Step(Success(NoResult), close.cursor, Declare(asm, id.result.value.name))
  }

  /** optional(f): runs f inside a new look-ahead buffer. A fatal error passes
      through untouched; any other error means "not here": the buffer is rolled
      back and the answer is None. On success the buffer is purged and the
      answer carries f's value. */
  function Optional(rule: Rule, c: Cursor, asm: Assembly, revision: Revision): (s: Step<Option<Value>>)
    ensures s.result.Success? && s.result.value.Some? ==> Produces(rule, s.result.value.value)
    ensures !Emits(rule) ==> s.asm == asm
    decreases Height(rule), 1, 0
  {
    Settle(Run(rule, LookAhead(c), asm, revision))
  }

  /** The end of optional(f), once f has returned inside the new buffer. */
  function Settle(inner: Step<Value>): (s: Step<Option<Value>>)
    ensures s.asm == inner.asm
    ensures s.result.Success? && s.result.value.Some? ==> inner.result == Success(s.result.value.value)
  {
    if inner.result == Failure(Fatal) then Step(Failure(Fatal), inner.cursor, inner.asm)
    else
      var rb := Rollback(inner.cursor, inner.result.Success?);
      if rb.Failure? then Step(Failure(rb.error), inner.cursor, inner.asm)
      else if inner.result.Success? then Step(Success(Some(inner.result.value)), rb.value, inner.asm)
      else Step(Success(None), rb.value, inner.asm)
  }

  /** The loop of `match` from alternative i on, inside match's own buffer. */
  function TryAlternatives(choice: Choice, i: nat, c: Cursor, asm: Assembly, revision: Revision): (s: Step<(nat, Value)>)
    requires i <= |Alternatives(choice)|
    ensures s.result.Success? ==>
      i <= s.result.value.0 < |Alternatives(choice)|
      && Produces(Alternatives(choice)[s.result.value.0], s.result.value.1)
    ensures !ChoiceEmits(choice) ==> s.asm == asm
    decreases ChoiceHeight(choice), 2, |Alternatives(choice)| - i, 1
  {
    var alts := Alternatives(choice);
    if i == |alts| then NoAlternative(c, asm, revision)
    else Attempt(choice, i, Optional(alts[i], c, asm, revision), revision)
  }

  /** One turn of the loop of `match`: alternative i under `optional`. */
  lemma TryAlternativesUnfolds(choice: Choice, i: nat, c: Cursor, asm: Assembly, revision: Revision)
    requires i < |Alternatives(choice)|
    ensures TryAlternatives(choice, i, c, asm, revision)
         == Attempt(choice, i, Optional(Alternatives(choice)[i], c, asm, revision), revision)
  {
  }

  /** No alternative applies: one token is taken for the error message. As
      written that token joins match's own buffer, which stays open; corrected,
      the buffer is first rolled back, so the token is the first one match was
      given. */
  function NoAlternative(c: Cursor, asm: Assembly, revision: Revision): (s: Step<(nat, Value)>)
    ensures s.result.Failure? && s.asm == asm
  {
    match revision
    case AsWritten =>
      Step(Failure(Speculative), NextToken(c).cursor, asm)
    case Corrected =>
      var rb := Rollback(c, false);
      if rb.Failure? then Step(Failure(rb.error), c, asm)
      else Step(Failure(Speculative), NextToken(rb.value).cursor, asm)
  }

  /** When no alternative matched, exactly one token is consumed: as written,
      the next token of the current buffer; corrected, the first token of the
      text the rolled-back buffer gives back. */
  lemma NoAlternativeConsumes(c: Cursor, asm: Assembly, revision: Revision)
    ensures var s := NoAlternative(c, asm, revision);
      && (s.result == Failure(Speculative) || s.result == Failure(Internal))
      && (revision == AsWritten || |c.stack| > 0 ==> s.result == Failure(Speculative))
      && (revision == AsWritten && |Remaining(c)| > 0 ==> Remaining(s.cursor) == Remaining(c)[1..])
      && (revision == Corrected && |c.stack| > 0 && |Top(c.stack) + Remaining(c)| > 0 ==>
            Remaining(s.cursor) == (Top(c.stack) + Remaining(c))[1..])
  {
  }

  /** The loop of `match` once alternative i has been tried under `optional`. */
  function Attempt(choice: Choice, i: nat, o: Step<Option<Value>>, revision: Revision): (s: Step<(nat, Value)>)
    requires i < |Alternatives(choice)|
    requires o.result.Success? && o.result.value.Some? ==> Produces(Alternatives(choice)[i], o.result.value.value)
    ensures s.result.Success? ==>
      i <= s.result.value.0 < |Alternatives(choice)|
      && Produces(Alternatives(choice)[s.result.value.0], s.result.value.1)
    ensures !ChoiceEmits(choice) ==> s.asm == o.asm
    decreases ChoiceHeight(choice), 2, |Alternatives(choice)| - i, 0
  {
    if o.result.Failure? then Step(Failure(o.result.error), o.cursor, o.asm)
    else if o.result.value.Some? then
      var rb := Rollback(o.cursor, true);
      if rb.Failure? then Step(Failure(rb.error), o.cursor, o.asm)
      else Step(Success((i, o.result.value.value)), rb.value, o.asm)
    else TryAlternatives(choice, i + 1, o.cursor, o.asm, revision)
  }

  /** match(name, ...alternatives): the index and value of the first
      alternative that succeeds. */
  function Match(choice: Choice, c: Cursor, asm: Assembly, revision: Revision): (s: Step<(nat, Value)>)
    ensures s.result.Success? ==>
      s.result.value.0 < |Alternatives(choice)| && Yields(choice, s.result.value.1)
    ensures !ChoiceEmits(choice) ==> s.asm == asm
    decreases ChoiceHeight(choice), 3, 0
  {
    var s := TryAlternatives(choice, 0, LookAhead(c), asm, revision);
    if s.result.Success? then
      AlternativeYields(choice, s.result.value.0, s.result.value.1);
      s
    else s
  }

  /** The kind of value a successful `match` leaves behind. */
  predicate Yields(choice: Choice, v: Value)
  {
    match choice
    case OperationChoice => v.ExpressionResult?
    case RegisterOrConstant => v.OperandResult?
    case _ => v.NoResult?
  }

  lemma AlternativeYields(choice: Choice, i: nat, v: Value)
    requires i < |Alternatives(choice)| && Produces(Alternatives(choice)[i], v)
    ensures Yields(choice, v)
  {
  }
}
