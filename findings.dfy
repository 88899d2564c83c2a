/** The line `@-D`, traced through the parser as written and as corrected.
    As written, the failed `match` for the address leaves its look-ahead buffer
    open; the `optional` around the A instruction then closes that buffer
    instead of its own, puts back only the `-`, and the line is read as the C
    instruction `-D`: the `@` is lost. */
module Findings {
  import opened Base
  import opened Instructions
  import opened TokenCursor
  import opened Grammar
  import opened Discipline
  import opened Driver
  import opened Reading
  import Encoder

  const Minus: Token := OperationToken(Subtract)
  const RegisterD: Token := Identifier("D")

  /** `-D` as an operation. */
  const NegateD: OperationDescription := Unary(Subtract, Reg(D))

  // ---------------------------------------------------------------------------
  // `-D` is read as a C instruction.

  /** `D` is the register operand, the second alternative. */
  lemma RegisterOperandD(c: Cursor, asm: Assembly, revision: Revision)
    requires |Remaining(c)| > 0 && Remaining(c)[0] == RegisterD
    ensures var s := Match(RegisterOrConstant, c, asm, revision);
      s.result == Success((1, OperandResult(Reg(D)))) && Remaining(s.cursor) == Remaining(c)[1..] && s.asm == asm
  {
    var t := LookAhead(c);
    Mismatch(BooleanOperand, t, asm, revision);
    var o1 := Optional(BooleanOperand, t, asm, revision);
    FirstDeclines(RegisterOrConstant, c, asm, revision);
    RegisterAlternativeD(o1.cursor, asm, revision);
  }

  lemma RegisterAlternativeD(c: Cursor, asm: Assembly, revision: Revision)
    requires |Remaining(c)| > 0 && Remaining(c)[0] == RegisterD && |c.stack| > 0
    ensures var s := TryAlternatives(RegisterOrConstant, 1, c, asm, revision);
      s.result == Success((1, OperandResult(Reg(D)))) && Remaining(s.cursor) == Remaining(c)[1..] && s.asm == asm
  {
    var e := Expect(LookAhead(c), IdentifierKind, AnyValue);
    assert e.result == Success(RegisterD);
    RunsParseRegister(LookAhead(c), asm, revision);
    Takes(RegisterOperand, c, asm, revision);
  }

  /** `-D` is the unary operation `-` on D. */
  lemma UnaryNegateD(c: Cursor, asm: Assembly, revision: Revision)
    requires |Remaining(c)| > 1 && Remaining(c)[0] == Minus && Remaining(c)[1] == RegisterD
    ensures var s := UnaryPart(c, asm, revision);
      s.result == Success(ExpressionResult(NegateD)) && Remaining(s.cursor) == Remaining(c)[2..] && s.asm == asm
  {
    var e := Expect(c, OperationKind, UnaryOperators);
    assert e.result == Success(Minus);
    assert Remaining(e.cursor) == Remaining(c)[1..];
    RegisterOperandD(e.cursor, asm, revision);
  }

  /** `-D` is an operation, the first alternative. */
  lemma OperationNegateD(c: Cursor, asm: Assembly, revision: Revision)
    requires |Remaining(c)| > 1 && Remaining(c)[0] == Minus && Remaining(c)[1] == RegisterD
    ensures var s := Match(OperationChoice, c, asm, revision);
      s.result == Success((0, ExpressionResult(NegateD))) && Remaining(s.cursor) == Remaining(c)[2..] && s.asm == asm
  {
    var t := LookAhead(c);
    var u := LookAhead(t);
    UnaryNegateD(u, asm, revision);
    RunsUnaryPart(u, asm, revision);
    Takes(UnaryExpression, t, asm, revision);
    var o := Optional(UnaryExpression, t, asm, revision);
    assert |o.cursor.stack| > 0;
    assert Match(OperationChoice, c, asm, revision) == Attempt(OperationChoice, 0, o, revision);
  }

  /** `-D` followed by the end of input is the C instruction `-D`, with no
      destination and no jump. */
  lemma ComputeNegateD(c: Cursor, asm: Assembly, revision: Revision)
    requires |Remaining(c)| > 2 && Remaining(c)[0] == Minus && Remaining(c)[1] == RegisterD && Remaining(c)[2] == EOF
    ensures Encode(NegateD, revision).Success?
    ensures var s := ComputeLine(c, asm, revision);
      s.result == Success(NoResult) && Remaining(s.cursor) == Remaining(c)[2..]
      && s.asm == Emit(asm, Compute(DestNone, Encode(NegateD, revision).value, JumpNone))
  {
    Mismatch(Destination, c, asm, revision);
    var d := Optional(Destination, c, asm, revision);
    OperationNegateD(d.cursor, asm, revision);
    var m := Match(OperationChoice, d.cursor, asm, revision);
    assert ComputeLine(c, asm, revision) == ComputeFields(DestNone, m, revision);
    NegateDEncodes(revision);
    var flags := Encode(NegateD, revision).value;
    Mismatch(JumpSuffix, m.cursor, asm, revision);
    var j := Optional(JumpSuffix, m.cursor, asm, revision);
    assert ComputeFields(DestNone, m, revision) == ComputeJump(DestNone, flags, j);
  }

  lemma NegateDEncodes(revision: Revision)
    ensures Encode(NegateD, revision).Success?
  {
    Encoder.AsWrittenAcceptance(NegateD);
    Encoder.CorrectedAcceptance(NegateD);
  }

  // ---------------------------------------------------------------------------
  // `@` followed by `-`: no literal, no name.

  /** `-` is neither a literal nor a name: `optional` gives up and puts it back. */
  lemma MinusIsNoAddress(rule: Rule, c: Cursor, asm: Assembly, revision: Revision)
    requires rule == NumberLiteral || rule == SymbolReference
    requires |Remaining(c)| > 0 && Remaining(c)[0] == Minus
    ensures var o := Optional(rule, c, asm, revision);
      o.result == Success(None) && Remaining(o.cursor) == Remaining(c) && o.cursor.stack == c.stack && o.asm == asm
  {
    Mismatch(rule, c, asm, revision);
  }

  /** Both alternatives give up on `-`, and `match` is left to report it, from
      inside its own buffer. */
  lemma NoAddressAtMinus(c: Cursor, asm: Assembly, revision: Revision)
    requires |Remaining(c)| > 0 && Remaining(c)[0] == Minus
    ensures var d := Declined(c, asm, revision);
      Remaining(d) == Remaining(c) && d.stack == c.stack + [[]]
      && Match(LabelOrNumber, c, asm, revision) == NoAlternative(d, asm, revision)
  {
    var t := LookAhead(c);
    MinusIsNoAddress(NumberLiteral, t, asm, revision);
    var o1 := Optional(NumberLiteral, t, asm, revision);
    FirstDeclines(LabelOrNumber, c, asm, revision);
    MinusIsNoAddress(SymbolReference, o1.cursor, asm, revision);
    var o2 := Optional(SymbolReference, o1.cursor, asm, revision);
    AlternativeDeclines(LabelOrNumber, 1, o1.cursor, asm, revision);
    assert TryAlternatives(LabelOrNumber, 2, o2.cursor, asm, revision) == NoAlternative(o2.cursor, asm, revision);
  }

  /** Where `match` stands after both address alternatives have declined. */
  ghost function Declined(c: Cursor, asm: Assembly, revision: Revision): Cursor
  {
    var t := LookAhead(c);
    Optional(SymbolReference, Optional(NumberLiteral, t, asm, revision).cursor, asm, revision).cursor
  }

  /** What the report of a failed `match` does to the buffers, when its own
      buffer is still empty. */
  lemma ReportFromFreshBuffer(d: Cursor, stack: seq<seq<Token>>, asm: Assembly, revision: Revision)
    requires d.stack == stack + [[]] && |Remaining(d)| > 0
    ensures var s := NoAlternative(d, asm, revision);
      s.result == Failure(Speculative) && s.asm == asm && Remaining(s.cursor) == Remaining(d)[1..]
      && s.cursor.stack == (if revision == AsWritten then stack + [[Remaining(d)[0]]]
                            else AppendToTop(stack, [Remaining(d)[0]]))
  {
    assert Pop(d.stack) == stack && Top(d.stack) == [];
    if revision == AsWritten {
      AppendToFresh(stack, [Remaining(d)[0]]);
    }
  }

  /** As written, the failed `match` takes the `-` for its error message into
      its own buffer and leaves that buffer open. */
  lemma FailedMatchLeaksBuffer(c: Cursor, asm: Assembly)
    requires |Remaining(c)| > 0 && Remaining(c)[0] == Minus
    ensures var s := Match(LabelOrNumber, c, asm, AsWritten);
      s.result == Failure(Speculative) && s.asm == asm
      && Remaining(s.cursor) == Remaining(c)[1..] && s.cursor.stack == c.stack + [[Minus]]
  {
    NoAddressAtMinus(c, asm, AsWritten);
    ReportFromFreshBuffer(Declined(c, asm, AsWritten), c.stack, asm, AsWritten);
  }

  /** Corrected, the failed `match` closes its buffer first, and the `-` goes
      to the enclosing one. */
  lemma FailedMatchClosesBuffer(c: Cursor, asm: Assembly)
    requires |Remaining(c)| > 0 && Remaining(c)[0] == Minus
    ensures var s := Match(LabelOrNumber, c, asm, Corrected);
      s.result == Failure(Speculative) && s.asm == asm
      && Remaining(s.cursor) == Remaining(c)[1..] && s.cursor.stack == AppendToTop(c.stack, [Minus])
  {
    NoAddressAtMinus(c, asm, Corrected);
    ReportFromFreshBuffer(Declined(c, asm, Corrected), c.stack, asm, Corrected);
  }

  /** As written, `@-` fails as an A instruction with two buffers open: its
      own, holding `@`, and the leaked one holding `-`. */
  lemma AddressLineAtMinus(c: Cursor, asm: Assembly)
    requires |Remaining(c)| > 1 && Remaining(c)[0] == LoadMarker && Remaining(c)[1] == Minus
    ensures var s := AddressLine(c, asm, AsWritten);
      s.result == Failure(Speculative) && s.asm == asm
      && Remaining(s.cursor) == Remaining(c)[2..] && s.cursor.stack == AppendToTop(c.stack, [LoadMarker]) + [[Minus]]
  {
    var e := Expect(c, LoadMarkerKind, AnyValue);
    assert Remaining(e.cursor) == Remaining(c)[1..];
    FailedMatchLeaksBuffer(e.cursor, asm);
  }

  /** As written, `optional` then closes the leaked buffer in place of its own:
      the `-` is put back, the `@` stays buried in a buffer nobody closes. */
  lemma AddressOptionAtMinus(c: Cursor, asm: Assembly)
    requires |Remaining(c)| > 1 && Remaining(c)[0] == LoadMarker && Remaining(c)[1] == Minus
    ensures var o := Optional(AddressInstruction, c, asm, AsWritten);
      o.result == Success(None) && o.asm == asm
      && Remaining(o.cursor) == Remaining(c)[1..] && o.cursor.stack == c.stack + [[LoadMarker]]
  {
    var u := LookAhead(c);
    AddressLineAtMinus(u, asm);
    RunsAddressLine(u, asm, AsWritten);
    var inner := AddressLine(u, asm, AsWritten);
    assert Optional(AddressInstruction, c, asm, AsWritten) == Settle(inner);
    AppendToFresh(c.stack, [LoadMarker]);
    assert Top(inner.cursor.stack) == [Minus] && Pop(inner.cursor.stack) == c.stack + [[LoadMarker]];
    var rb := Rollback(inner.cursor, false).value;
    assert Settle(inner) == Step(Success(None), rb, asm);
    assert Remaining(c)[1..] == [Minus] + Remaining(c)[2..];
  }

  /** Tokens recorded in a buffer just opened. */
  lemma AppendToFresh(stack: seq<seq<Token>>, tokens: seq<Token>)
    ensures AppendToTop(stack + [[]], tokens) == stack + [tokens]
  {
    assert Pop(stack + [[]]) == stack;
    assert Top(stack + [[]]) + tokens == tokens;
  }

  lemma RunsAddressLine(c: Cursor, asm: Assembly, revision: Revision)
    ensures Run(AddressInstruction, c, asm, revision) == AddressLine(c, asm, revision)
  {
  }

  lemma RunsComputeLine(c: Cursor, asm: Assembly, revision: Revision)
    ensures Run(ComputeInstruction, c, asm, revision) == ComputeLine(c, asm, revision)
  {
  }

  lemma RunsExpectEnd(c: Cursor, asm: Assembly, revision: Revision)
    ensures Run(ExpectEnd, c, asm, revision) == Single(c, asm, EOFKind)
  {
  }

  // ---------------------------------------------------------------------------
  // The line `@-D`.

  /** As written, `@-D` matches as the second alternative, a C instruction,
      which appends `-D`. */
  lemma NextInstructionAtMinusD(c: Cursor, asm: Assembly)
    requires |Remaining(c)| > 3
    requires Remaining(c)[0] == LoadMarker && Remaining(c)[1] == Minus
    requires Remaining(c)[2] == RegisterD && Remaining(c)[3] == EOF
    ensures var s := Match(NextInstruction, c, asm, AsWritten);
      s.result == Success((1, NoResult)) && Remaining(s.cursor) == Remaining(c)[3..]
      && s.asm == Emit(asm, Compute(DestNone, Encode(NegateD, AsWritten).value, JumpNone))
  {
    var t := LookAhead(c);
    AddressOptionAtMinus(t, asm);
    var o1 := Optional(AddressInstruction, t, asm, AsWritten);
    assert Match(NextInstruction, c, asm, AsWritten) == TryAlternatives(NextInstruction, 0, t, asm, AsWritten);
    assert TryAlternatives(NextInstruction, 0, t, asm, AsWritten) == Attempt(NextInstruction, 0, o1, AsWritten);
    assert Attempt(NextInstruction, 0, o1, AsWritten) == TryAlternatives(NextInstruction, 1, o1.cursor, asm, AsWritten);
    var u := LookAhead(o1.cursor);
    assert Remaining(u) == Remaining(c)[1..];
    ComputeNegateD(u, asm, AsWritten);
    RunsComputeLine(u, asm, AsWritten);
    Takes(ComputeInstruction, o1.cursor, asm, AsWritten);
    var o2 := Optional(ComputeInstruction, o1.cursor, asm, AsWritten);
    assert TryAlternatives(NextInstruction, 1, o1.cursor, asm, AsWritten) == Attempt(NextInstruction, 1, o2, AsWritten);
    assert |o2.cursor.stack| > 0;
  }

  /** The end of input ends the line, as the second alternative. */
  lemma EndOfInputEndsLine(c: Cursor, asm: Assembly, revision: Revision)
    requires |Remaining(c)| > 0 && Remaining(c)[0] == EOF
    ensures var s := Match(SeparatorOrEnd, c, asm, revision);
      s.result == Success((1, NoResult)) && s.asm == asm
  {
    var t := LookAhead(c);
    Mismatch(ExpectSeparator, t, asm, revision);
    var o1 := Optional(ExpectSeparator, t, asm, revision);
    FirstDeclines(SeparatorOrEnd, c, asm, revision);
    EndAlternative(o1.cursor, asm, revision);
  }

  lemma EndAlternative(c: Cursor, asm: Assembly, revision: Revision)
    requires |Remaining(c)| > 0 && Remaining(c)[0] == EOF && |c.stack| > 0
    ensures var s := TryAlternatives(SeparatorOrEnd, 1, c, asm, revision);
      s.result == Success((1, NoResult)) && s.asm == asm
  {
    RunsExpectEnd(LookAhead(c), asm, revision);
    Takes(ExpectEnd, c, asm, revision);
  }

  /** The tokens of the line `@-D`. */
  const AtMinusD: seq<Token> := [LoadMarker, Minus, RegisterD, EOF]

  /** As written, the program `@-D` assembles to the single C instruction
      `-D`, as if the `@` were not there. */
  lemma AtMinusDAssemblesAsNegateD(reserved: map<string, int>, order: seq<string>)
    ensures var start := Start(AtMinusD, reserved, order);
      ParseTokens(AtMinusD, reserved, order, AsWritten)
        == Success(Emit(start.1, Compute(DestNone, Encode(NegateD, AsWritten).value, JumpNone)))
  {
    var start := Start(AtMinusD, reserved, order);
    var c := start.0;
    var asm := start.1;
    Mismatch(ExpectSeparator, c, asm, AsWritten);
    var o := Optional(ExpectSeparator, c, asm, AsWritten);
    assert SkipSeparators(c, asm, AsWritten) == Step(Success(()), o.cursor, asm);
    assert Lines(c, asm, AsWritten) == Line(c, o.cursor, asm, AsWritten);
    Mismatch(ExpectEnd, o.cursor, asm, AsWritten);
    var e := Optional(ExpectEnd, o.cursor, asm, AsWritten);
    NextInstructionAtMinusD(e.cursor, asm);
    var m := Match(NextInstruction, e.cursor, asm, AsWritten);
    assert Line(c, o.cursor, asm, AsWritten) == LineEnd(c, m, AsWritten);
    EndOfInputEndsLine(m.cursor, m.asm, AsWritten);
  }

  // ---------------------------------------------------------------------------
  // Corrected, `@-D` is an error.

  /** `@` is neither a constant nor a register. */
  lemma NoOperandAtLoad(c: Cursor, asm: Assembly)
    requires |Remaining(c)| > 0 && Remaining(c)[0] == LoadMarker
    ensures Match(RegisterOrConstant, c, asm, Corrected).result == Failure(Speculative)
  {
    var t := LookAhead(c);
    Mismatch(BooleanOperand, t, asm, Corrected);
    var o1 := Optional(BooleanOperand, t, asm, Corrected);
    FirstDeclines(RegisterOrConstant, c, asm, Corrected);
    Mismatch(RegisterOperand, o1.cursor, asm, Corrected);
    var o2 := Optional(RegisterOperand, o1.cursor, asm, Corrected);
    AlternativeDeclines(RegisterOrConstant, 1, o1.cursor, asm, Corrected);
    assert TryAlternatives(RegisterOrConstant, 2, o2.cursor, asm, Corrected) == NoAlternative(o2.cursor, asm, Corrected);
  }

  /** `@` starts none of the three kinds of operation. */
  lemma NoOperationPartAtLoad(rule: Rule, c: Cursor, asm: Assembly)
    requires rule == UnaryExpression || rule == BinaryExpression || rule == ConstantExpression
    requires |Remaining(c)| > 0 && Remaining(c)[0] == LoadMarker
    ensures var o := Optional(rule, c, asm, Corrected);
      o.result == Success(None) && Remaining(o.cursor) == Remaining(c) && o.cursor.stack == c.stack && o.asm == asm
  {
    var u := LookAhead(c);
    if rule == UnaryExpression {
      RunsUnaryPart(u, asm, Corrected);
      assert Expect(u, OperationKind, UnaryOperators).result == Failure(Speculative);
    } else if rule == BinaryExpression {
      RunsBinaryPart(u, asm, Corrected);
      NoOperandAtLoad(u, asm);
    } else {
      RunsConstantPart(u, asm, Corrected);
      NoOperandAtLoad(u, asm);
    }
    CorrectedGivesUp(rule, c, asm);
  }

  /** `@` is no operation. */
  lemma NoOperationAtLoad(c: Cursor, asm: Assembly)
    requires |Remaining(c)| > 0 && Remaining(c)[0] == LoadMarker
    ensures Match(OperationChoice, c, asm, Corrected).result == Failure(Speculative)
  {
    NoOperationFrom(0, LookAhead(c), asm);
  }

  /** From alternative i on, none of the operation alternatives applies at `@`. */
  lemma {:induction false} NoOperationFrom(i: nat, t: Cursor, asm: Assembly)
    requires i <= 3 && |t.stack| > 0
    requires |Remaining(t)| > 0 && Remaining(t)[0] == LoadMarker
    ensures TryAlternatives(OperationChoice, i, t, asm, Corrected).result == Failure(Speculative)
    decreases 3 - i
  {
    var alts := Alternatives(OperationChoice);
    if i < 3 {
      NoOperationPartAtLoad(alts[i], t, asm);
      var o := Optional(alts[i], t, asm, Corrected);
      assert TryAlternatives(OperationChoice, i, t, asm, Corrected) == Attempt(OperationChoice, i, o, Corrected);
      NoOperationFrom(i + 1, o.cursor, asm);
    }
  }

  /** `@` starts no C instruction. */
  lemma NoComputeAtLoad(c: Cursor, asm: Assembly)
    requires |Remaining(c)| > 0 && Remaining(c)[0] == LoadMarker
    ensures ComputeLine(c, asm, Corrected).result == Failure(Speculative)
  {
    Mismatch(Destination, c, asm, Corrected);
    var d := Optional(Destination, c, asm, Corrected);
    NoOperationAtLoad(d.cursor, asm);
    var m := Match(OperationChoice, d.cursor, asm, Corrected);
    assert ComputeLine(c, asm, Corrected) == ComputeOperation(d, Corrected);
    assert ComputeOperation(d, Corrected) == ComputeFields(DestNone, m, Corrected);
  }

  /** Corrected, `@-` fails as an A instruction and `optional` puts both
      tokens back. */
  lemma CorrectedAddressOptionAtMinus(c: Cursor, asm: Assembly)
    requires |Remaining(c)| > 1 && Remaining(c)[0] == LoadMarker && Remaining(c)[1] == Minus
    ensures var o := Optional(AddressInstruction, c, asm, Corrected);
      o.result == Success(None) && Remaining(o.cursor) == Remaining(c) && o.cursor.stack == c.stack && o.asm == asm
  {
    var u := LookAhead(c);
    var e := Expect(u, LoadMarkerKind, AnyValue);
    assert Remaining(e.cursor) == Remaining(c)[1..];
    FailedMatchClosesBuffer(e.cursor, asm);
    RunsAddressLine(u, asm, Corrected);
    CorrectedGivesUp(AddressInstruction, c, asm);
  }

  /** Corrected, `@-D` is no instruction: `match` fails. */
  lemma CorrectedNextInstructionAtMinusD(c: Cursor, asm: Assembly)
    requires |Remaining(c)| > 1 && Remaining(c)[0] == LoadMarker && Remaining(c)[1] == Minus
    ensures Match(NextInstruction, c, asm, Corrected).result == Failure(Speculative)
  {
    var t := LookAhead(c);
    CorrectedAddressOptionAtMinus(t, asm);
    var o1 := Optional(AddressInstruction, t, asm, Corrected);
    FirstDeclines(NextInstruction, c, asm, Corrected);
    NoComputeAtLoad(LookAhead(o1.cursor), asm);
    RunsComputeLine(LookAhead(o1.cursor), asm, Corrected);
    CorrectedGivesUp(ComputeInstruction, o1.cursor, asm);
    var o2 := Optional(ComputeInstruction, o1.cursor, asm, Corrected);
    AlternativeDeclines(NextInstruction, 1, o1.cursor, asm, Corrected);
    NoLabelAtLoad(o2.cursor, asm);
    var o3 := Optional(LabelDeclaration, o2.cursor, asm, Corrected);
    AlternativeDeclines(NextInstruction, 2, o2.cursor, asm, Corrected);
    assert TryAlternatives(NextInstruction, 3, o3.cursor, asm, Corrected) == NoAlternative(o3.cursor, asm, Corrected);
  }

  lemma NoLabelAtLoad(c: Cursor, asm: Assembly)
    requires |Remaining(c)| > 0 && Remaining(c)[0] == LoadMarker
    ensures var o := Optional(LabelDeclaration, c, asm, Corrected);
      o.result == Success(None) && Remaining(o.cursor) == Remaining(c) && o.cursor.stack == c.stack && o.asm == asm
  {
    var u := LookAhead(c);
    assert Expect(u, OpenDeclarationKind, AnyValue).result == Failure(Speculative);
    RunsLabelLine(u, asm, Corrected);
    CorrectedGivesUp(LabelDeclaration, c, asm);
  }

  lemma RunsLabelLine(c: Cursor, asm: Assembly, revision: Revision)
    ensures Run(LabelDeclaration, c, asm, revision) == LabelLine(c, asm)
  {
  }

  /** Corrected, a program that starts with `@-` is rejected. */
  lemma LinesRejectAtMinus(c: Cursor, asm: Assembly)
    requires |Remaining(c)| > 1 && Remaining(c)[0] == LoadMarker && Remaining(c)[1] == Minus
    ensures Lines(c, asm, Corrected) == Failure(Speculative)
  {
    Mismatch(ExpectSeparator, c, asm, Corrected);
    var o := Optional(ExpectSeparator, c, asm, Corrected);
    assert SkipSeparators(c, asm, Corrected) == Step(Success(()), o.cursor, asm);
    assert Lines(c, asm, Corrected) == Line(c, o.cursor, asm, Corrected);
    Mismatch(ExpectEnd, o.cursor, asm, Corrected);
    var e := Optional(ExpectEnd, o.cursor, asm, Corrected);
    CorrectedNextInstructionAtMinusD(e.cursor, asm);
    var m := Match(NextInstruction, e.cursor, asm, Corrected);
    MatchDisciplined(NextInstruction, e.cursor, asm, Corrected);
    AdvancedTrans(c, o.cursor, e.cursor);
    AdvancedTrans(c, e.cursor, m.cursor);
    assert Line(c, o.cursor, asm, Corrected) == LineEnd(c, m, Corrected);
  }

  /** Corrected, the program `@-D` is rejected. */
  lemma AtMinusDIsRejected(reserved: map<string, int>, order: seq<string>)
    ensures ParseTokens(AtMinusD, reserved, order, Corrected) == Failure(Speculative)
  {
    var start := Start(AtMinusD, reserved, order);
    LinesRejectAtMinus(start.0, start.1);
  }
}
