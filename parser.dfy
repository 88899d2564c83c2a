/** The `Parser` class and the loop of `parse`, on mutable state. The class
    keeps the token cursor in its fields (the lexer's input, the queue of
    pushed-back tokens, the stack of look-ahead buffers, the last token looked
    at); `optional`, `match` and the closures `parse` hands them are its
    methods. A closure that changes the program being assembled receives the
    program and returns the changed one. Each method is proved to do exactly
    what the function of the same name in `TokenCursor` or `Grammar` says, and
    `Parse` to return `ParseTokens`. */
module Parsing {
  import opened Base
  import opened Instructions
  import opened TokenCursor
  import opened Grammar
  import opened Discipline
  import opened Driver
  import Encoder

  class Parser {
    /** The tokens the lexer has yet to hand out. */
    var input: seq<Token>
    var availableTokens: seq<Token>
    var lookaheadBufferStack: seq<seq<Token>>
    var lastCheckedToken: Option<Token>
    /** Whether `match` and the encoder behave as written or as corrected. */
    const revision: Revision

    /** The cursor the fields hold. */
    function State(): Cursor
      reads this
    {
      Cursor(input, availableTokens, lookaheadBufferStack, lastCheckedToken)
    }

    constructor(tokens: seq<Token>, revision: Revision)
      ensures State() == Cursor(tokens, [], [], None) && this.revision == revision
    {
      input := tokens;
      availableTokens := [];
      lookaheadBufferStack := [];
      lastCheckedToken := None;
      this.revision := revision;
    }

    method NextTokenSimple() returns (token: Option<Token>)
      modifies this
      ensures Scan(token, State()) == TokenCursor.NextTokenSimple(old(State()))
    {
      if |availableTokens| > 0 {
        var saved := availableTokens[0];
        availableTokens := availableTokens[1..];
        lastCheckedToken := Some(saved);
        return Some(saved);
      }
      if |input| > 0 {
        token := Some(input[0]);
        input := input[1..];
      } else {
        token := None;
      }
      lastCheckedToken := token;
    }

    method NextToken() returns (token: Option<Token>)
      modifies this
      ensures Scan(token, State()) == TokenCursor.NextToken(old(State()))
    {
      token := NextTokenSimple();
      if token.None? {
        return;
      }
      var n := |lookaheadBufferStack|;
      if n > 0 {
        lookaheadBufferStack := lookaheadBufferStack[..n - 1] + [lookaheadBufferStack[n - 1] + [token.value]];
      }
    }

    method LookAhead()
      modifies this
      ensures State() == TokenCursor.LookAhead(old(State()))
    {
      lookaheadBufferStack := lookaheadBufferStack + [[]];
    }

    method Rollback(purge: bool) returns (r: Result<()>)
      modifies this
      ensures var spec := TokenCursor.Rollback(old(State()), purge);
        if spec.Failure? then r == Failure(spec.error) && State() == old(State())
        else r == Success(()) && State() == spec.value
    {
      var n := |lookaheadBufferStack|;
      if n == 0 {
        return Failure(Internal);
      }
      var buffer := lookaheadBufferStack[n - 1];
      lookaheadBufferStack := lookaheadBufferStack[..n - 1];
      if purge {
        if n - 1 > 0 {
          lookaheadBufferStack := lookaheadBufferStack[..n - 2] + [lookaheadBufferStack[n - 2] + buffer];
        }
      } else {
        availableTokens := buffer + availableTokens;
      }
      return Success(());
    }

    method Expect(kind: Kind, allowed: Allowed) returns (r: Result<Token>)
      modifies this
      ensures Scan(r, State()) == TokenCursor.Expect(old(State()), kind, allowed)
    {
      var curr := NextToken();
      if curr.None? {
        return Failure(Speculative);
      }
      if KindOf(curr.value) != kind {
        return Failure(Speculative);
      }
      if !Admits(allowed, curr.value) {
        return Failure(Fatal);
      }
      return Success(curr.value);
    }

    method Optional(rule: Rule, asm: Assembly) returns (r: Result<Option<Value>>, after: Assembly)
      modifies this
      ensures Step(r, State(), after) == Grammar.Optional(rule, old(State()), asm, revision)
      decreases Height(rule), 1, 0
    {
      LookAhead();
      var inner;
      inner, after := Run(rule, asm);
      if inner == Failure(Fatal) {
        return Failure(Fatal), after;
      }
      var success := inner.Success?;
      var rb := Rollback(success);
      if rb.Failure? {
        return Failure(rb.error), after;
      }
      r := if success then Success(Some(inner.value)) else Success(None);
    }

    method Match(choice: Choice, asm: Assembly) returns (r: Result<(nat, Value)>, after: Assembly)
      modifies this
      ensures Step(r, State(), after) == Grammar.Match(choice, old(State()), asm, revision)
      decreases ChoiceHeight(choice), 3, 0
    {
      LookAhead();
      ghost var start := State();
      after := asm;
      for i := 0 to |Alternatives(choice)|
        invariant TryAlternatives(choice, i, State(), after, revision) == TryAlternatives(choice, 0, start, asm, revision)
      {
        var next;
        r, after, next := Alternative(choice, i, after);
        if !next {
          return;
        }
      }
      r := NoAlternative();
    }

    /** One turn of the loop of `match`: alternative i under `optional`. It
        either answers for the whole `match` or hands over to alternative i + 1. */
    method Alternative(choice: Choice, i: nat, asm: Assembly) returns (r: Result<(nat, Value)>, after: Assembly, next: bool)
      requires i < |Alternatives(choice)|
      modifies this
      ensures next ==> TryAlternatives(choice, i, old(State()), asm, revision) == TryAlternatives(choice, i + 1, State(), after, revision)
      ensures !next ==> TryAlternatives(choice, i, old(State()), asm, revision) == Step(r, State(), after)
      decreases ChoiceHeight(choice), 2, 0
    {
      var alternatives := Alternatives(choice);
      assert alternatives[i] in alternatives;
      ghost var before := State();
      TryAlternativesUnfolds(choice, i, before, asm, revision);
      var o;
      o, after := Optional(alternatives[i], asm);
      if o.Failure? {
        return Failure(o.error), after, false;
      }
      if o.value.Some? {
        var rb := Rollback(true);
        if rb.Failure? {
          return Failure(rb.error), after, false;
        }
        return Success((i, o.value.value)), after, false;
      }
      return Failure(Speculative), after, true;
    }

    /** The end of `match` when no alternative applied: the token for the error
        message, taken after closing match's buffer in the corrected parser. */
    method NoAlternative() returns (r: Result<(nat, Value)>)
      modifies this
      ensures forall asm :: Step(r, State(), asm) == Grammar.NoAlternative(old(State()), asm, revision)
    {
      if revision == Corrected {
        var rb := Rollback(false);
        if rb.Failure? {
          return Failure(rb.error);
        }
      }
      var token := NextToken();
      r := Failure(Speculative);
    }

    /** Calling a closure. */
    method Run(rule: Rule, asm: Assembly) returns (r: Result<Value>, after: Assembly)
      modifies this
      ensures Step(r, State(), after) == Grammar.Run(rule, old(State()), asm, revision)
      decreases Height(rule), 0, 3
    {
      match rule
      case ExpectSeparator => r := Single(SeparatorKind); after := asm;
      case ExpectEnd => r := Single(EOFKind); after := asm;
      case BooleanOperand => r := ParseBoolean(); after := asm;
      case RegisterOperand => r := ParseRegister(); after := asm;
      case NumberLiteral => r, after := LiteralAddress(asm);
      case SymbolReference => r, after := SymbolAddress(asm);
      case AddressInstruction => r, after := AddressLine(asm);
      case Destination => r := DestinationPart(); after := asm;
      case UnaryExpression => r := UnaryPart(asm); after := asm;
      case BinaryExpression => r := BinaryPart(asm); after := asm;
      case ConstantExpression => r := ConstantPart(asm); after := asm;
      case JumpSuffix => r := JumpPart(); after := asm;
      case ComputeInstruction => r, after := ComputeLine(asm);
      case LabelDeclaration => r, after := LabelLine(asm);
    }

    /** `() => p.expect(kind)` */
    method Single(kind: Kind) returns (r: Result<Value>)
      modifies this
      ensures forall asm :: Step(r, State(), asm) == Grammar.Single(old(State()), asm, kind)
    {
      var e := Expect(kind, AnyValue);
      r := if e.Success? then Success(NoResult) else Failure(e.error);
    }

    method ParseBoolean() returns (r: Result<Value>)
      modifies this
      ensures forall asm :: Step(r, State(), asm) == Grammar.ParseBoolean(old(State()), asm)
    {
      var num := Expect(NumberKind, AnyValue);
      if num.Failure? {
        return Failure(num.error);
      }
      if num.value.value != 0 && num.value.value != 1 {
        return Failure(Fatal);
      }
      r := Success(OperandResult(if num.value.value == 0 then Zero else One));
    }

    method ParseRegister() returns (r: Result<Value>)
      modifies this
      ensures forall asm :: Step(r, State(), asm) == Grammar.ParseRegister(old(State()), asm)
    {
      var id := Expect(IdentifierKind, AnyValue);
      if id.Failure? {
        return Failure(id.error);
      }
      if id.value.name !in RegisterNames {
        return Failure(Fatal);
      }
      r := Success(OperandResult(Reg(RegisterNames[id.value.name])));
    }

    /** `@` digits: the literal, clipped to 15 bits, is appended. */
    method LiteralAddress(asm: Assembly) returns (r: Result<Value>, after: Assembly)
      modifies this
      ensures Step(r, State(), after) == Grammar.LiteralAddress(old(State()), asm)
    {
      var num := Expect(NumberKind, AnyValue);
      if num.Failure? {
        return Failure(num.error), asm;
      }
      var clipped := Clip(num.value.value);
      after := asm.(instructions := asm.instructions + [Address(clipped)]);
      r := Success(NoResult);
    }

    /** `@` name: an unseen name takes the next placeholder, which then counts
        down; the name's pointer is appended. */
    method SymbolAddress(asm: Assembly) returns (r: Result<Value>, after: Assembly)
      modifies this
      ensures Step(r, State(), after) == Grammar.SymbolAddress(old(State()), asm)
    {
      var labelToken := Expect(IdentifierKind, AnyValue);
      if labelToken.Failure? {
        return Failure(labelToken.error), asm;
      }
      var name := labelToken.value.name;
      after := asm;
      if name !in after.symbols {
        after := after.(symbols := after.symbols[name := after.nextPlaceholder],
                        symbolOrder := after.symbolOrder + [name]);
        after := after.(nextPlaceholder := after.nextPlaceholder - 1);
      }
      var pointer := after.symbols[name];
      after := after.(instructions := after.instructions + [Address(pointer)]);
      r := Success(NoResult);
    }

    /** The A instruction. */
    method AddressLine(asm: Assembly) returns (r: Result<Value>, after: Assembly)
      modifies this
      ensures Step(r, State(), after) == Grammar.AddressLine(old(State()), asm, revision)
      decreases 1, 0, 0
    {
      var marker := Expect(LoadMarkerKind, AnyValue);
      if marker.Failure? {
        return Failure(marker.error), asm;
      }
      var m;
      m, after := Match(LabelOrNumber, asm);
      r := if m.Success? then Success(NoResult) else Failure(m.error);
    }

    /** `dest =` */
    method DestinationPart() returns (r: Result<Value>)
      modifies this
      ensures forall asm :: Step(r, State(), asm) == Grammar.DestinationPart(old(State()), asm)
    {
      var destMnemonic := Expect(IdentifierKind, AnyValue);
      if destMnemonic.Failure? {
        return Failure(destMnemonic.error);
      }
      var assignment := Expect(AssignmentKind, AnyValue);
      if assignment.Failure? {
        return Failure(assignment.error);
      }
      if destMnemonic.value.name !in DestinationMnemonics {
        return Failure(Fatal);
      }
      r := Success(FieldResult(DestinationMnemonics[destMnemonic.value.name]));
    }

    /** `!` or `-` and an operand. */
    method UnaryPart(asm: Assembly) returns (r: Result<Value>)
      modifies this
      ensures Step(r, State(), asm) == Grammar.UnaryPart(old(State()), asm, revision)
      decreases 1, 0, 0
    {
      var op := Expect(OperationKind, UnaryOperators);
      if op.Failure? {
        return Failure(op.error);
      }
      var operand, _ := Match(RegisterOrConstant, asm);
      if operand.Failure? {
        return Failure(operand.error);
      }
      r := Success(ExpressionResult(Unary(op.value.op, operand.value.1.operand)));
    }

    /** An operand, an operator other than `!`, an operand. */
    method BinaryPart(asm: Assembly) returns (r: Result<Value>)
      modifies this
      ensures Step(r, State(), asm) == Grammar.BinaryPart(old(State()), asm, revision)
      decreases 1, 0, 2
    {
      ghost var c := State();
      var firstOperand, _ := Match(RegisterOrConstant, asm);
      ghost var first := Step(firstOperand, State(), asm);
      assert Grammar.BinaryPart(c, asm, revision) == BinaryOperator(first, revision);
      if firstOperand.Failure? {
        return Failure(firstOperand.error);
      }
      var op := Expect(OperationKind, BinaryOperators);
      if op.Failure? {
        return Failure(op.error);
      }
      var secondOperand, _ := Match(RegisterOrConstant, asm);
      if secondOperand.Failure? {
        return Failure(secondOperand.error);
      }
      r := Success(ExpressionResult(Binary(op.value.op, firstOperand.value.1.operand, secondOperand.value.1.operand)));
    }

    /** A lone operand. */
    method ConstantPart(asm: Assembly) returns (r: Result<Value>)
      modifies this
      ensures Step(r, State(), asm) == Grammar.ConstantPart(old(State()), asm, revision)
      decreases 1, 0, 0
    {
      var operand, _ := Match(RegisterOrConstant, asm);
      if operand.Failure? {
        return Failure(operand.error);
      }
      r := Success(ExpressionResult(Constant(operand.value.1.operand)));
    }

    /** `; jump` */
    method JumpPart() returns (r: Result<Value>)
      modifies this
      ensures forall asm :: Step(r, State(), asm) == Grammar.JumpPart(old(State()), asm)
    {
      var marker := Expect(JumpKind, AnyValue);
      if marker.Failure? {
        return Failure(marker.error);
      }
      var jumpMnemonic := Expect(IdentifierKind, AnyValue);
      if jumpMnemonic.Failure? {
        return Failure(jumpMnemonic.error);
      }
      if jumpMnemonic.value.name !in JumpMnemonics {
        return Failure(Fatal);
      }
      r := Success(FieldResult(JumpMnemonics[jumpMnemonic.value.name]));
    }

    /** The C instruction: appended once its fields are known. */
    method ComputeLine(asm: Assembly) returns (r: Result<Value>, after: Assembly)
      modifies this
      ensures Step(r, State(), after) == Grammar.ComputeLine(old(State()), asm, revision)
      decreases 2, 0, 2
    {
      ghost var c := State();
      var d, _ := Optional(Destination, asm);
      ghost var dStep := Step(d, State(), asm);
      assert Grammar.ComputeLine(c, asm, revision) == ComputeOperation(dStep, revision);
      if d.Failure? {
        return Failure(d.error), asm;
      }
      var dest := if d.value.Some? then d.value.value.field else DestNone;
      var operation, _ := Match(OperationChoice, asm);
      ghost var mStep := Step(operation, State(), asm);
      assert ComputeOperation(dStep, revision) == ComputeFields(dest, mStep, revision);
      if operation.Failure? {
        return Failure(operation.error), asm;
      }
      r, after := EncodeAndAppend(dest, operation.value.1.desc, asm, operation.value.0);
    }

    /** The rest of the C instruction once its operation is matched: the
        encoding, the optional jump, and the instruction appended. */
    method EncodeAndAppend(dest: bv3, desc: OperationDescription, asm: Assembly, ghost index: nat)
      returns (r: Result<Value>, after: Assembly)
      modifies this
      ensures Step(r, State(), after)
           == ComputeFields(dest, Step(Success((index, ExpressionResult(desc))), old(State()), asm), revision)
      decreases 2, 0, 0
    {
      var operationFlags := FlagsForOperation(desc);
      if operationFlags.Failure? {
        return Failure(operationFlags.error), asm;
      }
      var j, _ := Optional(JumpSuffix, asm);
      if j.Failure? {
        return Failure(j.error), asm;
      }
      var jump := if j.value.Some? then j.value.value.field else JumpNone;
      after := asm.(instructions := asm.instructions + [Compute(dest, operationFlags.value, jump)]);
      r := Success(NoResult);
    }

    /** `flagsForOperation(p, desc)`: the encoder, whose refusals are `p.fatal`.
        With the corrected encoder, a control field it hands back makes the ALU
        compute what the expression denotes, whatever D, A and M hold. */
    method FlagsForOperation(desc: OperationDescription) returns (flags: Result<bv7>)
      ensures flags == Encode(desc, revision)
      ensures flags.Failure? ==> flags.error == Fatal
      ensures revision == Corrected && flags.Success? ==>
        forall d: Encoder.Word, a: Encoder.Word, m: Encoder.Word ::
          Encoder.Execute(flags.value, d, a, m) == Encoder.Meaning(desc, d, a, m)
    {
      flags := Encode(desc, revision);
      if revision == Corrected && flags.Success? {
        forall d: Encoder.Word, a: Encoder.Word, m: Encoder.Word
          ensures Encoder.Execute(flags.value, d, a, m) == Encoder.Meaning(desc, d, a, m)
        {
          Encoder.EncodingIsSound(desc, d, a, m);
        }
      }
    }

    /** `(LABEL)`: the label points at the next instruction. */
    method LabelLine(asm: Assembly) returns (r: Result<Value>, after: Assembly)
      modifies this
      ensures Step(r, State(), after) == Grammar.LabelLine(old(State()), asm)
    {
      var open := Expect(OpenDeclarationKind, AnyValue);
      if open.Failure? {
        return Failure(open.error), asm;
      }
      var name := Expect(IdentifierKind, AnyValue);
      if name.Failure? {
        return Failure(name.error), asm;
      }
      var close := Expect(CloseDeclarationKind, AnyValue);
      if close.Failure? {
        return Failure(close.error), asm;
      }
      after := asm.(jumps := asm.jumps[name.value.name := |asm.instructions|]);
      r := Success(NoResult);
    }
  }

  /** `parse`, from the lexer's tokens on: the symbol table starts as the
      reserved symbols (keys in the order given), the first placeholder is -1,
      and the loop reads blank lines, then the end of input or one instruction
      followed by a separator or the end. Any error ends it. */
  method Parse(tokens: seq<Token>, reserved: map<string, int>, reservedOrder: seq<string>, revision: Revision)
    returns (r: Result<Assembly>)
    ensures r == ParseTokens(tokens, reserved, reservedOrder, revision)
  {
    var p := new Parser(tokens, revision);
    var program := Assembly([], reserved, reservedOrder, map[], -1);
    assert (p.State(), program) == Start(tokens, reserved, reservedOrder);
    ghost var spec := ParseTokens(tokens, reserved, reservedOrder, revision);
    var reachedEnd := false;
    while !reachedEnd
      invariant p.revision == revision
      invariant !reachedEnd ==> Lines(p.State(), program, revision) == spec
      invariant reachedEnd ==> spec == Success(program)
      decreases !reachedEnd, |Remaining(p.State())|
    {
      ghost var start := p.State();
      LinesUnfold(start, program, revision);
      var skipped := SkipBlankLines(p, program);
      if skipped.Failure? {
        return Failure(skipped.error);
      }
      var line, done := ReadLine(p, start, program);
      if line.Failure? {
        return Failure(line.error);
      }
      program := line.value;
      reachedEnd := done;
    }
    return Success(program);
  }

  /** `while (p.optional(() => p.expect("separator"))) { }` */
  method SkipBlankLines(p: Parser, program: Assembly) returns (r: Result<()>)
    modifies p
    ensures Step(r, p.State(), program) == SkipSeparators(old(p.State()), program, p.revision)
  {
    var skipped := true;
    r := Success(());
    while skipped
      invariant skipped ==> SkipSeparators(p.State(), program, p.revision) == SkipSeparators(old(p.State()), program, p.revision)
      invariant !skipped ==> Step(r, p.State(), program) == SkipSeparators(old(p.State()), program, p.revision)
      decreases skipped, |Remaining(p.State())|
    {
      ghost var before := p.State();
      SkipOne(before, program, p.revision);
      var separator, _ := p.Optional(ExpectSeparator, program);
      if separator.Failure? {
        return Failure(separator.error);
      }
      skipped := separator.value.Some?;
    }
  }

  /** The rest of one turn of the outer loop, which began at `start`: the end
      of input, or an instruction and the separator or end after it. `done`
      says the loop ends here, with `r` as the result of `parse`. */
  method ReadLine(p: Parser, ghost start: Cursor, program: Assembly) returns (r: Result<Assembly>, done: bool)
    requires Advanced(start, p.State())
    modifies p
    ensures done ==> r == Line(start, old(p.State()), program, p.revision)
    ensures !done ==> r.Success? && |Remaining(p.State())| < |Remaining(start)|
                      && Lines(p.State(), r.value, p.revision) == Line(start, old(p.State()), program, p.revision)
  {
    ghost var lineStart := p.State();
    ghost var e := Grammar.Optional(ExpectEnd, lineStart, program, p.revision);
    ghost var m := Grammar.Match(NextInstruction, e.cursor, program, p.revision);
    LineSteps(start, lineStart, program, p.revision);
    // End of input before the next instruction.
    var end, _ := p.Optional(ExpectEnd, program);
    if end.Failure? {
      return Failure(end.error), true;
    }
    if end.value.Some? {
      return Success(program), true;
    }
    LineEndSteps(start, m, p.revision);
    var instruction, next := p.Match(NextInstruction, program);
    if instruction.Failure? {
      return Failure(instruction.error), true;
    }
    var terminator, after := p.Match(SeparatorOrEnd, next);
    if terminator.Failure? {
      return Failure(terminator.error), true;
    }
    return Success(after), terminator.value.0 == 1;
  }

  /** One turn of the outer loop: the blank lines, then one line. */
  lemma LinesUnfold(c: Cursor, asm: Assembly, revision: Revision)
    ensures var s := SkipSeparators(c, asm, revision);
      && (s.result.Failure? ==> Lines(c, asm, revision) == Failure(s.result.error))
      && (s.result.Success? ==> Advanced(c, s.cursor) && Lines(c, asm, revision) == Line(c, s.cursor, asm, revision))
  {
  }

  /** One turn of the loop over blank lines. */
  lemma SkipOne(c: Cursor, asm: Assembly, revision: Revision)
    ensures var o := Grammar.Optional(ExpectSeparator, c, asm, revision);
      && o.asm == asm
      && (o.result.Failure? ==> SkipSeparators(c, asm, revision).result == Failure(o.result.error))
      && (o.result.Success? && o.result.value.Some? ==>
            SkipSeparators(c, asm, revision) == SkipSeparators(o.cursor, asm, revision)
            && |Remaining(o.cursor)| < |Remaining(c)|)
      && (o.result == Success(None) ==> SkipSeparators(c, asm, revision) == Step(Success(()), o.cursor, asm))
  {
    OptionalDisciplined(ExpectSeparator, c, asm, revision);
  }

  /** One line, from cursor d on, of the turn of the outer loop that began at c. */
  lemma LineSteps(c: Cursor, d: Cursor, asm: Assembly, revision: Revision)
    requires Advanced(c, d)
    ensures var e := Grammar.Optional(ExpectEnd, d, asm, revision);
      var m := Grammar.Match(NextInstruction, e.cursor, asm, revision);
      var line := Line(c, d, asm, revision);
      && e.asm == asm
      && (e.result.Failure? ==> line == Failure(e.result.error))
      && (e.result.Success? && e.result.value.Some? ==> line == Success(asm))
      && (e.result == Success(None) ==>
            && Advanced(c, m.cursor) && Progress(c, m) && m.result != Failure(Internal)
            && line == LineEnd(c, m, revision))
  {
    var e := Grammar.Optional(ExpectEnd, d, asm, revision);
    OptionalDisciplined(ExpectEnd, d, asm, revision);
    if e.result == Success(None) {
      var m := Grammar.Match(NextInstruction, e.cursor, asm, revision);
      MatchDisciplined(NextInstruction, e.cursor, asm, revision);
      AdvancedTrans(c, d, e.cursor);
      AdvancedTrans(c, e.cursor, m.cursor);
    }
  }

  /** The separator or end of input after the instruction matched by m. */
  lemma LineEndSteps(c: Cursor, m: Step<(nat, Value)>, revision: Revision)
    requires Advanced(c, m.cursor) && Progress(c, m) && m.result != Failure(Internal)
    ensures var t := Grammar.Match(SeparatorOrEnd, m.cursor, m.asm, revision);
      var r := LineEnd(c, m, revision);
      && t.asm == m.asm
      && (m.result.Failure? ==> r == Failure(m.result.error))
      && (m.result.Success? && t.result.Failure? ==> r == Failure(t.result.error))
      && (m.result.Success? && t.result.Success? && t.result.value.0 == 1 ==> r == Success(t.asm))
      && (m.result.Success? && t.result.Success? && t.result.value.0 != 1 ==>
            r == Lines(t.cursor, t.asm, revision) && |Remaining(t.cursor)| < |Remaining(c)|)
  {
    if m.result.Success? {
      MatchDisciplined(SeparatorOrEnd, m.cursor, m.asm, revision);
    }
  }
}
