/** What the rules of a C instruction read. The reference functions say, for
    the tokens ahead, which operand, operation and C instruction stands at
    their front and how many tokens it takes; the lemmas prove that `match`,
    the operation alternatives and the whole C-instruction rule agree with
    them. They also state what `match` promises: the first alternative that
    applies under `optional` wins. */
module Reading {
  import opened Base
  import opened Instructions
  import opened TokenCursor
  import opened Grammar
  import opened Discipline
  import opened Effects

  // ---------------------------------------------------------------------------
  // Reference reading of the tokens ahead.

  /** `parseRegisterOrBool`: 0 or 1, or one of the names D, A, M. Another
      number or another name is fatal; anything else is not an operand. */
  function OperandOf(r: seq<Token>): (x: Result<Operand>)
    ensures x.Success? ==> |r| > 0
  {
    if |r| == 0 then Failure(Speculative)
    else match r[0]
      case Number(n) => if n == 0 then Success(Zero) else if n == 1 then Success(One) else Failure(Fatal)
      case Identifier(name) => if name in RegisterNames then Success(Reg(RegisterNames[name])) else Failure(Fatal)
      case _ => Failure(Speculative)
  }

  /** `!` or `-` then an operand: two tokens. Another operator is fatal. */
  function UnaryOf(r: seq<Token>): (x: Result<OperationDescription>)
    ensures x.Success? ==> |r| >= 2
  {
    if |r| == 0 || !r[0].OperationToken? then Failure(Speculative)
    else if r[0].op != Not && r[0].op != Subtract then Failure(Fatal)
    else match OperandOf(r[1..])
      case Success(operand) => Success(Unary(r[0].op, operand))
      case Failure(e) => Failure(e)
  }

  /** An operand, an operator other than `!`, an operand: three tokens. */
  function BinaryOf(r: seq<Token>): (x: Result<OperationDescription>)
    ensures x.Success? ==> |r| >= 3
  {
    match OperandOf(r)
    case Failure(e) => Failure(e)
    case Success(first) =>
      if |r| < 2 || !r[1].OperationToken? then Failure(Speculative)
      else if r[1].op == Not then Failure(Fatal)
      else match OperandOf(r[2..])
        case Success(second) => Success(Binary(r[1].op, first, second))
        case Failure(e) => Failure(e)
  }

  /** A lone operand: one token. */
  function ConstantOf(r: seq<Token>): (x: Result<OperationDescription>)
    ensures x.Success? ==> |r| >= 1
  {
    match OperandOf(r)
    case Success(operand) => Success(Constant(operand))
    case Failure(e) => Failure(e)
  }

  /** Alternative i of an operation, in the order `match` tries them: unary,
      binary, constant. */
  function OperationAlternative(r: seq<Token>, i: nat): Result<OperationDescription>
    requires i < 3
  {
    if i == 0 then UnaryOf(r) else if i == 1 then BinaryOf(r) else ConstantOf(r)
  }

  /** The number of tokens alternative i of an operation takes. */
  function OperationWidth(i: nat): nat
  {
    if i == 0 then 2 else if i == 1 then 3 else 1
  }

  /** The first of the operation alternatives from i on that applies, and the
      number of tokens it takes; a fatal error in one of them ends the search. */
  function FirstOperation(r: seq<Token>, i: nat): (x: Result<(OperationDescription, nat)>)
    requires i <= 3
    ensures x.Success? ==> 1 <= x.value.1 <= |r|
    ensures x.Failure? ==> x.error != Internal
    decreases 3 - i
  {
    if i == 3 then Failure(Speculative)
    else
      var alternative := OperationAlternative(r, i);
      if alternative.Success? then Success((alternative.value, OperationWidth(i)))
      else if alternative.error != Speculative then Failure(alternative.error)
      else FirstOperation(r, i + 1)
  }

  /** The operation at the front and the number of tokens it takes. */
  function OperationOf(r: seq<Token>): (x: Result<(OperationDescription, nat)>)
    ensures x.Success? ==> 1 <= x.value.1 <= |r|
  {
    FirstOperation(r, 0)
  }

  /** `dest =` at the front: its field and two tokens, or no destination and no
      token; a name that is not a destination is fatal. */
  function DestinationOf(r: seq<Token>): (x: Result<(bv3, nat)>)
    ensures x.Success? ==> x.value.1 <= |r|
  {
    if |r| < 2 || !r[0].Identifier? || r[1] != Assignment then Success((DestNone, 0))
    else if r[0].name in DestinationMnemonics then Success((DestinationMnemonics[r[0].name], 2))
    else Failure(Fatal)
  }

  /** `; jump` at the front: its field and two tokens, or no jump and no token;
      a name that is not a jump is fatal. */
  function JumpOf(r: seq<Token>): (x: Result<(bv3, nat)>)
    ensures x.Success? ==> x.value.1 <= |r|
  {
    if |r| < 2 || r[0] != JumpMarker || !r[1].Identifier? then Success((JumpNone, 0))
    else if r[1].name in JumpMnemonics then Success((JumpMnemonics[r[1].name], 2))
    else Failure(Fatal)
  }

  /** The text of a C instruction: its fields and the number of tokens taken. */
  datatype ComputeText = ComputeText(dest: bv3, desc: OperationDescription, jump: bv3, length: nat)

  /** `dest=operation;jump` at the front, with `dest=` and `;jump` optional. */
  function ComputeOf(r: seq<Token>): (x: Result<ComputeText>)
    ensures x.Success? ==> 1 <= x.value.length <= |r|
    ensures x.Failure? ==> x.error != Internal
  {
    match DestinationOf(r)
    case Failure(e) => Failure(e)
    case Success((dest, k)) =>
      match OperationOf(r[k..])
      case Failure(e) => Failure(e)
      case Success((desc, n)) =>
        match JumpOf(r[k + n..])
        case Failure(e) => Failure(e)
        case Success((jump, m)) => Success(ComputeText(dest, desc, jump, k + n + m))
  }

  // ---------------------------------------------------------------------------
  // `optional` around a rule that fails or succeeds, and one turn of `match`.

  /** A rule that fails softly and keeps its depth leaves `optional` with
      nothing, the cursor restored. */
  lemma GivesUp(rule: Rule, c: Cursor, asm: Assembly, revision: Revision)
    requires Run(rule, LookAhead(c), asm, revision).result == Failure(Speculative)
    requires |Run(rule, LookAhead(c), asm, revision).cursor.stack| == |c.stack| + 1
    ensures var o := Optional(rule, c, asm, revision);
      o.result == Success(None) && Remaining(o.cursor) == Remaining(c) && o.cursor.stack == c.stack && o.asm == asm
  {
    var inner := Run(rule, LookAhead(c), asm, revision);
    RunDisciplined(rule, LookAhead(c), asm, revision);
    LookAheadNested(c);
    NestedAdvance(c, LookAhead(c), inner.cursor);
    RestoreNested(c, inner.cursor);
  }

  /** A rule that succeeds leaves `optional` with its value. */
  lemma Takes(rule: Rule, c: Cursor, asm: Assembly, revision: Revision)
    requires Run(rule, LookAhead(c), asm, revision).result.Success?
    ensures var inner := Run(rule, LookAhead(c), asm, revision); var o := Optional(rule, c, asm, revision);
      o.result == Success(Some(inner.result.value)) && Remaining(o.cursor) == Remaining(inner.cursor)
      && o.asm == inner.asm && Advanced(c, o.cursor)
  {
    var inner := Run(rule, LookAhead(c), asm, revision);
    RunDisciplined(rule, LookAhead(c), asm, revision);
    LookAheadNested(c);
    NestedAdvance(c, LookAhead(c), inner.cursor);
    PurgeNested(c, inner.cursor);
  }

  /** Rules that expect one token they do not find. */
  lemma Mismatch(rule: Rule, c: Cursor, asm: Assembly, revision: Revision)
    requires |Remaining(c)| > 0
    requires || (rule == ExpectSeparator && Remaining(c)[0] != Separator)
             || (rule == ExpectEnd && Remaining(c)[0] != EOF)
             || (rule == NumberLiteral && !Remaining(c)[0].Number?)
             || (rule == SymbolReference && !Remaining(c)[0].Identifier?)
             || (rule == BooleanOperand && !Remaining(c)[0].Number?)
             || (rule == RegisterOperand && !Remaining(c)[0].Identifier?)
             || (rule == Destination && !Remaining(c)[0].Identifier?)
             || (rule == JumpSuffix && Remaining(c)[0] != JumpMarker)
    ensures var o := Optional(rule, c, asm, revision);
      o.result == Success(None) && Remaining(o.cursor) == Remaining(c) && o.cursor.stack == c.stack && o.asm == asm
  {
    var u := LookAhead(c);
    var kind := match rule
      case ExpectSeparator => SeparatorKind
      case ExpectEnd => EOFKind
      case NumberLiteral => NumberKind
      case BooleanOperand => NumberKind
      case JumpSuffix => JumpKind
      case _ => IdentifierKind;
    ExpectAdvances(u, kind, AnyValue);
    assert Expect(u, kind, AnyValue).result == Failure(Speculative);
    if rule == Destination {
      DestinationPartMoves(u, asm);
    } else if rule == JumpSuffix {
      JumpPartMoves(u, asm);
    }
    GivesUp(rule, c, asm, revision);
  }

  /** `match` opens its buffer and, when its first alternative yields nothing
      under `optional`, goes on to the second. */
  lemma FirstDeclines(choice: Choice, c: Cursor, asm: Assembly, revision: Revision)
    requires 0 < |Alternatives(choice)|
    requires var o := Optional(Alternatives(choice)[0], LookAhead(c), asm, revision);
      o.result == Success(None) && o.asm == asm
    ensures var o := Optional(Alternatives(choice)[0], LookAhead(c), asm, revision);
      Match(choice, c, asm, revision) == TryAlternatives(choice, 1, o.cursor, asm, revision)
  {
    AlternativeDeclines(choice, 0, LookAhead(c), asm, revision);
  }

  /** An alternative that yields nothing under `optional` hands over to the next. */
  lemma AlternativeDeclines(choice: Choice, i: nat, t: Cursor, asm: Assembly, revision: Revision)
    requires i < |Alternatives(choice)|
    requires var o := Optional(Alternatives(choice)[i], t, asm, revision); o.result == Success(None) && o.asm == asm
    ensures var o := Optional(Alternatives(choice)[i], t, asm, revision);
      TryAlternatives(choice, i, t, asm, revision) == TryAlternatives(choice, i + 1, o.cursor, asm, revision)
  {
  }

  lemma RunsParseRegister(c: Cursor, asm: Assembly, revision: Revision)
    ensures Run(RegisterOperand, c, asm, revision) == ParseRegister(c, asm)
  {
  }

  lemma RunsUnaryPart(c: Cursor, asm: Assembly, revision: Revision)
    ensures Run(UnaryExpression, c, asm, revision) == UnaryPart(c, asm, revision)
  {
  }

  /** Corrected, a rule that fails softly leaves `optional` with nothing and
      the cursor restored. */
  lemma CorrectedGivesUp(rule: Rule, c: Cursor, asm: Assembly)
    requires Run(rule, LookAhead(c), asm, Corrected).result == Failure(Speculative)
    ensures var o := Optional(rule, c, asm, Corrected);
      o.result == Success(None) && Remaining(o.cursor) == Remaining(c) && o.cursor.stack == c.stack && o.asm == asm
  {
    RunDisciplined(rule, LookAhead(c), asm, Corrected);
    GivesUp(rule, c, asm, Corrected);
  }

  lemma RunsBinaryPart(c: Cursor, asm: Assembly, revision: Revision)
    ensures Run(BinaryExpression, c, asm, revision) == BinaryPart(c, asm, revision)
  {
    var s := Run(BinaryExpression, c, asm, revision);
    assert s == BinaryPart(c, asm, revision);
  }

  lemma RunsConstantPart(c: Cursor, asm: Assembly, revision: Revision)
    ensures Run(ConstantExpression, c, asm, revision) == ConstantPart(c, asm, revision)
  {
    var s := Run(ConstantExpression, c, asm, revision);
    assert s == ConstantPart(c, asm, revision);
  }

  /** With no token left, the rules for an operand do not apply. */
  lemma NothingLeft(rule: Rule, c: Cursor, asm: Assembly, revision: Revision)
    requires rule == BooleanOperand || rule == RegisterOperand
    requires |Remaining(c)| == 0
    ensures var o := Optional(rule, c, asm, revision);
      o.result == Success(None) && Remaining(o.cursor) == Remaining(c) && o.cursor.stack == c.stack && o.asm == asm
  {
    var u := LookAhead(c);
    var kind := if rule == BooleanOperand then NumberKind else IdentifierKind;
    assert Expect(u, kind, AnyValue).result == Failure(Speculative);
    GivesUp(rule, c, asm, revision);
  }

  lemma RunsParseBoolean(c: Cursor, asm: Assembly, revision: Revision)
    ensures Run(BooleanOperand, c, asm, revision) == ParseBoolean(c, asm)
  {
  }

  lemma RunsDestinationPart(c: Cursor, asm: Assembly, revision: Revision)
    ensures Run(Destination, c, asm, revision) == DestinationPart(c, asm)
  {
  }

  lemma RunsJumpPart(c: Cursor, asm: Assembly, revision: Revision)
    ensures Run(JumpSuffix, c, asm, revision) == JumpPart(c, asm)
  {
  }

  /** One turn of the loop of `match`, inside match's buffer: an alternative
      that succeeds is chosen with its value, a fatal error ends the loop, and
      one that does not apply and keeps its depth hands over to the next
      alternative with the cursor restored. */
  lemma AlternativeStep(choice: Choice, i: nat, t: Cursor, asm: Assembly, revision: Revision)
    requires i < |Alternatives(choice)| && |t.stack| > 0
    ensures var rule := Alternatives(choice)[i];
      var inner := Run(rule, LookAhead(t), asm, revision);
      var o := Optional(rule, t, asm, revision);
      var s := TryAlternatives(choice, i, t, asm, revision);
      && (inner.result.Success? ==>
            s.result == Success((i, inner.result.value)) && Remaining(s.cursor) == Remaining(inner.cursor)
            && s.asm == inner.asm)
      && (inner.result == Failure(Fatal) ==> s.result == Failure(Fatal) && s.asm == inner.asm)
      && (inner.result == Failure(Speculative) && |inner.cursor.stack| == |t.stack| + 1 ==>
            && Remaining(o.cursor) == Remaining(t) && o.cursor.stack == t.stack && o.asm == asm
            && s == TryAlternatives(choice, i + 1, o.cursor, asm, revision))
  {
    var rule := Alternatives(choice)[i];
    var inner := Run(rule, LookAhead(t), asm, revision);
    var o := Optional(rule, t, asm, revision);
    assert TryAlternatives(choice, i, t, asm, revision) == Attempt(choice, i, o, revision);
    if inner.result.Success? {
      Takes(rule, t, asm, revision);
    } else if inner.result == Failure(Speculative) && |inner.cursor.stack| == |t.stack| + 1 {
      GivesUp(rule, t, asm, revision);
    }
  }

  // ---------------------------------------------------------------------------
  // The operation alternatives read what the reference functions say.

  /** `match("operand", parseBoolean, parseRegister)` reads `OperandOf`, in
      either revision, and takes exactly the operand's token. */
  lemma OperandReads(c: Cursor, asm: Assembly, revision: Revision)
    ensures var s := Match(RegisterOrConstant, c, asm, revision); var x := OperandOf(Remaining(c));
      && s.asm == asm
      && (x.Failure? ==> s.result == Failure(x.error))
      && (x.Success? ==>
            s.result.Success? && s.result.value.1 == OperandResult(x.value)
            && Remaining(s.cursor) == Remaining(c)[1..])
  {
    BooleanAlternative(LookAhead(c), asm, revision);
  }

  /** The loop of the operand `match` from `parseBoolean` on. */
  lemma BooleanAlternative(t: Cursor, asm: Assembly, revision: Revision)
    requires |t.stack| > 0
    ensures var s := TryAlternatives(RegisterOrConstant, 0, t, asm, revision); var x := OperandOf(Remaining(t));
      && s.asm == asm
      && (x.Failure? ==> s.result == Failure(x.error))
      && (x.Success? ==>
            s.result.Success? && s.result.value.1 == OperandResult(x.value)
            && Remaining(s.cursor) == Remaining(t)[1..])
  {
    var r := Remaining(t);
    if |r| > 0 && r[0].Number? {
      NumberAlternative(t, asm, revision);
    } else {
      if |r| == 0 {
        NothingLeft(BooleanOperand, t, asm, revision);
      } else {
        Mismatch(BooleanOperand, t, asm, revision);
      }
      AlternativeDeclines(RegisterOrConstant, 0, t, asm, revision);
      RegisterAlternative(Optional(BooleanOperand, t, asm, revision).cursor, asm, revision);
    }
  }

  /** A number is read by `parseBoolean`, the first alternative. */
  lemma NumberAlternative(t: Cursor, asm: Assembly, revision: Revision)
    requires |t.stack| > 0 && |Remaining(t)| > 0 && Remaining(t)[0].Number?
    ensures var s := TryAlternatives(RegisterOrConstant, 0, t, asm, revision); var x := OperandOf(Remaining(t));
      && s.asm == asm
      && (x.Failure? ==> s.result == Failure(x.error))
      && (x.Success? ==>
            s.result.Success? && s.result.value.1 == OperandResult(x.value)
            && Remaining(s.cursor) == Remaining(t)[1..])
  {
    var u := LookAhead(t);
    RunsParseBoolean(u, asm, revision);
    BooleanOperandOf(u, asm);
    AlternativeStep(RegisterOrConstant, 0, t, asm, revision);
  }

  /** The loop of the operand `match` from `parseRegister` on, where the tokens
      do not start with a number. */
  lemma RegisterAlternative(t: Cursor, asm: Assembly, revision: Revision)
    requires |t.stack| > 0 && (|Remaining(t)| == 0 || !Remaining(t)[0].Number?)
    ensures var s := TryAlternatives(RegisterOrConstant, 1, t, asm, revision); var x := OperandOf(Remaining(t));
      && s.asm == asm
      && (x.Failure? ==> s.result == Failure(x.error))
      && (x.Success? ==>
            s.result.Success? && s.result.value.1 == OperandResult(x.value)
            && Remaining(s.cursor) == Remaining(t)[1..])
  {
    var r := Remaining(t);
    if |r| > 0 && r[0].Identifier? {
      var u := LookAhead(t);
      RunsParseRegister(u, asm, revision);
      RegisterOperandOf(u, asm);
      AlternativeStep(RegisterOrConstant, 1, t, asm, revision);
    } else {
      NoOperand(t, asm, revision);
    }
  }

  /** Neither a number nor a name: no operand. */
  lemma NoOperand(t: Cursor, asm: Assembly, revision: Revision)
    requires |t.stack| > 0 && (|Remaining(t)| == 0 || (!Remaining(t)[0].Number? && !Remaining(t)[0].Identifier?))
    ensures TryAlternatives(RegisterOrConstant, 1, t, asm, revision) == Step(Failure(Speculative), TryAlternatives(RegisterOrConstant, 1, t, asm, revision).cursor, asm)
  {
    if |Remaining(t)| == 0 {
      NothingLeft(RegisterOperand, t, asm, revision);
    } else {
      Mismatch(RegisterOperand, t, asm, revision);
    }
    AlternativeDeclines(RegisterOrConstant, 1, t, asm, revision);
    var o := Optional(RegisterOperand, t, asm, revision);
    assert TryAlternatives(RegisterOrConstant, 2, o.cursor, asm, revision) == NoAlternative(o.cursor, asm, revision);
  }

  /** `parseBoolean` reads the operand when the tokens start with a number. */
  lemma BooleanOperandOf(c: Cursor, asm: Assembly)
    requires |Remaining(c)| > 0 && Remaining(c)[0].Number?
    ensures var p := ParseBoolean(c, asm); var r := Remaining(c);
      && (OperandOf(r).Failure? ==> p.result == Failure(OperandOf(r).error))
      && (OperandOf(r).Success? ==> p.result == Success(OperandResult(OperandOf(r).value)) && Remaining(p.cursor) == r[1..])
  {
  }

  /** `parseRegister` reads the operand when the tokens start with a name. */
  lemma RegisterOperandOf(c: Cursor, asm: Assembly)
    requires |Remaining(c)| > 0 && Remaining(c)[0].Identifier?
    ensures var p := ParseRegister(c, asm); var r := Remaining(c);
      && (OperandOf(r).Failure? ==> p.result == Failure(OperandOf(r).error))
      && (OperandOf(r).Success? ==> p.result == Success(OperandResult(OperandOf(r).value)) && Remaining(p.cursor) == r[1..])
  {
  }

  /** The unary alternative reads `UnaryOf` and takes two tokens. */
  lemma UnaryPartReads(c: Cursor, asm: Assembly, revision: Revision)
    ensures var s := UnaryPart(c, asm, revision); var x := UnaryOf(Remaining(c));
      && (x.Failure? ==> s.result == Failure(x.error))
      && (x.Success? ==> s.result == Success(ExpressionResult(x.value)) && Remaining(s.cursor) == Remaining(c)[2..])
  {
    var e := Expect(c, OperationKind, UnaryOperators);
    if e.result.Success? {
      OperandReads(e.cursor, asm, revision);
    }
  }

  /** The binary alternative reads `BinaryOf` and takes three tokens. */
  lemma BinaryPartReads(c: Cursor, asm: Assembly, revision: Revision)
    ensures var s := BinaryPart(c, asm, revision); var x := BinaryOf(Remaining(c));
      && (x.Failure? ==> s.result == Failure(x.error))
      && (x.Success? ==> s.result == Success(ExpressionResult(x.value)) && Remaining(s.cursor) == Remaining(c)[3..])
  {
    OperandReads(c, asm, revision);
    var first := Match(RegisterOrConstant, c, asm, revision);
    if first.result.Success? {
      OperatorReads(first, revision);
    }
  }

  /** After the first operand: an operator other than `!`, then the second
      operand. */
  lemma OperatorReads(first: Step<(nat, Value)>, revision: Revision)
    requires first.result.Success? && first.result.value.1.OperandResult?
    ensures var s := BinaryOperator(first, revision); var r := Remaining(first.cursor);
      && (|r| == 0 || !r[0].OperationToken? ==> s.result == Failure(Speculative))
      && (|r| > 0 && r[0] == OperationToken(Not) ==> s.result == Failure(Fatal))
      && (|r| > 0 && r[0].OperationToken? && r[0].op != Not ==>
            var y := OperandOf(r[1..]);
            && (y.Failure? ==> s.result == Failure(y.error))
            && (y.Success? ==>
                  s.result == Success(ExpressionResult(Binary(r[0].op, first.result.value.1.operand, y.value)))
                  && Remaining(s.cursor) == r[2..]))
  {
    var e := Expect(first.cursor, OperationKind, BinaryOperators);
    if e.result.Success? {
      OperandReads(e.cursor, first.asm, revision);
    }
  }

  /** The constant alternative reads `ConstantOf` and takes one token. */
  lemma ConstantPartReads(c: Cursor, asm: Assembly, revision: Revision)
    ensures var s := ConstantPart(c, asm, revision); var x := ConstantOf(Remaining(c));
      && (x.Failure? ==> s.result == Failure(x.error))
      && (x.Success? ==> s.result == Success(ExpressionResult(x.value)) && Remaining(s.cursor) == Remaining(c)[1..])
  {
    OperandReads(c, asm, revision);
  }

  // ---------------------------------------------------------------------------
  // The corrected parser reads operations and C instructions as the reference
  // functions say. As written, a speculative failure inside a nested `match`
  // loses tokens (see `Findings`), so these hold for the corrected parser only.

  /** `match("operation", unary, binary, constant)` reads `OperationOf`: the
      first alternative that applies gives the description and the tokens it
      takes, a fatal error is fatal, and no operation at all is speculative. */
  lemma OperationReads(c: Cursor, asm: Assembly)
    ensures var s := Match(OperationChoice, c, asm, Corrected); var x := OperationOf(Remaining(c));
      && s.asm == asm
      && (x.Failure? ==> s.result == Failure(x.error))
      && (x.Success? ==>
            s.result.Success? && s.result.value.1 == ExpressionResult(x.value.0)
            && Remaining(s.cursor) == Remaining(c)[x.value.1..])
  {
    OperationsFrom(0, LookAhead(c), asm);
  }

  /** The loop of the operation `match` from alternative i on reads
      `FirstOperation` from i on. */
  lemma {:induction false} OperationsFrom(i: nat, t: Cursor, asm: Assembly)
    requires i <= 3 && |t.stack| > 0
    ensures var s := TryAlternatives(OperationChoice, i, t, asm, Corrected); var x := FirstOperation(Remaining(t), i);
      && s.asm == asm
      && (x.Failure? ==> s.result == Failure(x.error))
      && (x.Success? ==>
            s.result.Success? && s.result.value.1 == ExpressionResult(x.value.0)
            && Remaining(s.cursor) == Remaining(t)[x.value.1..])
    decreases 3 - i
  {
    if i == 3 {
      assert TryAlternatives(OperationChoice, i, t, asm, Corrected) == NoAlternative(t, asm, Corrected);
    } else {
      var rule := Alternatives(OperationChoice)[i];
      var u := LookAhead(t);
      AlternativeReads(i, u, asm);
      if OperationAlternative(Remaining(t), i) == Failure(Speculative) {
        CorrectedGivesUp(rule, t, asm);
        AlternativeDeclines(OperationChoice, i, t, asm, Corrected);
        OperationsFrom(i + 1, Optional(rule, t, asm, Corrected).cursor, asm);
      } else {
        AlternativeStep(OperationChoice, i, t, asm, Corrected);
      }
    }
  }

  /** Operation alternative i, run as a closure, reads `OperationAlternative`. */
  lemma AlternativeReads(i: nat, c: Cursor, asm: Assembly)
    requires i < 3
    ensures var s := Run(Alternatives(OperationChoice)[i], c, asm, Corrected); var x := OperationAlternative(Remaining(c), i);
      && (x.Failure? ==> s.result == Failure(x.error))
      && (x.Success? ==> s.result == Success(ExpressionResult(x.value)) && Remaining(s.cursor) == Remaining(c)[OperationWidth(i)..])
  {
    if i == 0 {
      RunsUnaryPart(c, asm, Corrected);
      UnaryPartReads(c, asm, Corrected);
    } else if i == 1 {
      RunsBinaryPart(c, asm, Corrected);
      BinaryPartReads(c, asm, Corrected);
    } else {
      RunsConstantPart(c, asm, Corrected);
      ConstantPartReads(c, asm, Corrected);
    }
  }

  /** `optional(dest =)` reads `DestinationOf`: the field and two tokens, or
      nothing with the cursor restored. */
  lemma DestinationReads(c: Cursor, asm: Assembly)
    ensures var o := Optional(Destination, c, asm, Corrected); var x := DestinationOf(Remaining(c));
      && o.asm == asm
      && (x.Failure? ==> o.result == Failure(Fatal))
      && (x.Success? ==>
            && o.result == (if x.value.1 == 0 then Success(None) else Success(Some(FieldResult(x.value.0))))
            && Remaining(o.cursor) == Remaining(c)[x.value.1..])
  {
    var u := LookAhead(c);
    RunsDestinationPart(u, asm, Corrected);
    DestinationPartReads(u, asm);
    var inner := DestinationPart(u, asm);
    if inner.result == Failure(Speculative) {
      CorrectedGivesUp(Destination, c, asm);
    } else if inner.result.Success? {
      Takes(Destination, c, asm, Corrected);
    }
  }

  /** `optional(; jump)` reads `JumpOf`: the field and two tokens, or nothing
      with the cursor restored. */
  lemma JumpReads(c: Cursor, asm: Assembly)
    ensures var o := Optional(JumpSuffix, c, asm, Corrected); var x := JumpOf(Remaining(c));
      && o.asm == asm
      && (x.Failure? ==> o.result == Failure(Fatal))
      && (x.Success? ==>
            && o.result == (if x.value.1 == 0 then Success(None) else Success(Some(FieldResult(x.value.0))))
            && Remaining(o.cursor) == Remaining(c)[x.value.1..])
  {
    var u := LookAhead(c);
    RunsJumpPart(u, asm, Corrected);
    JumpPartReads(u, asm);
    var inner := JumpPart(u, asm);
    if inner.result == Failure(Speculative) {
      CorrectedGivesUp(JumpSuffix, c, asm);
    } else if inner.result.Success? {
      Takes(JumpSuffix, c, asm, Corrected);
    }
  }

  /** The C-instruction rule reads `ComputeOf`. When the text is there and the
      encoder accepts its operation, exactly one instruction is appended, with
      the destination, the encoding and the jump read, and the whole text is
      consumed; when the text is not there the rule fails with the reading's
      error, and when the encoder refuses it the failure is fatal. A failure
      leaves the program alone. */
  lemma ComputeLineReads(c: Cursor, asm: Assembly)
    ensures var s := ComputeLine(c, asm, Corrected); var x := ComputeOf(Remaining(c));
      && (x.Failure? ==> s.result == Failure(x.error) && s.asm == asm)
      && (x.Success? && Encode(x.value.desc, Corrected).Failure? ==> s.result == Failure(Fatal) && s.asm == asm)
      && (x.Success? && Encode(x.value.desc, Corrected).Success? ==>
            && s.result == Success(NoResult)
            && s.asm == Emit(asm, Compute(x.value.dest, Encode(x.value.desc, Corrected).value, x.value.jump))
            && Remaining(s.cursor) == Remaining(c)[x.value.length..])
  {
    var x := ComputeOf(Remaining(c));
    if x.Success? && Encode(x.value.desc, Corrected).Success? {
      ComputeLineEmits(c, asm);
    } else {
      ComputeLineRefuses(c, asm);
    }
  }

  /** A C instruction whose text is there and whose operation the encoder
      accepts is appended. */
  lemma ComputeLineEmits(c: Cursor, asm: Assembly)
    requires ComputeOf(Remaining(c)).Success? && Encode(ComputeOf(Remaining(c)).value.desc, Corrected).Success?
    ensures var s := ComputeLine(c, asm, Corrected); var x := ComputeOf(Remaining(c)).value;
      && s.result == Success(NoResult)
      && s.asm == Emit(asm, Compute(x.dest, Encode(x.desc, Corrected).value, x.jump))
      && Remaining(s.cursor) == Remaining(c)[x.length..]
  {
    var r := Remaining(c);
    DestinationReads(c, asm);
    var d := Optional(Destination, c, asm, Corrected);
    assert ComputeLine(c, asm, Corrected) == ComputeOperation(d, Corrected);
    EmitsAfterDestination(d, r);
  }

  /** `ComputeLineEmits` once the destination has been read. */
  lemma EmitsAfterDestination(d: Step<Option<Value>>, r: seq<Token>)
    requires DestinationOf(r).Success?
    requires var (dest, k) := DestinationOf(r).value;
      && d.result == (if k == 0 then Success(None) else Success(Some(FieldResult(dest))))
      && Remaining(d.cursor) == r[k..]
    requires ComputeOf(r).Success? && Encode(ComputeOf(r).value.desc, Corrected).Success?
    ensures var s := ComputeOperation(d, Corrected); var x := ComputeOf(r).value;
      && s.result == Success(NoResult)
      && s.asm == Emit(d.asm, Compute(x.dest, Encode(x.desc, Corrected).value, x.jump))
      && Remaining(s.cursor) == r[x.length..]
  {
    var k := DestinationOf(r).value.1;
    var dest := if d.result.value.Some? then d.result.value.value.field else DestNone;
    OperationAndFieldsRead(d, dest, r[k..]);
    ComputeOfParts(r);
  }

  /** A C instruction whose text is not there fails with the reading's error,
      one whose operation the encoder refuses fails fatally; neither changes
      the program. */
  lemma ComputeLineRefuses(c: Cursor, asm: Assembly)
    requires ComputeOf(Remaining(c)).Success? ==> Encode(ComputeOf(Remaining(c)).value.desc, Corrected).Failure?
    ensures var s := ComputeLine(c, asm, Corrected); var x := ComputeOf(Remaining(c));
      && s.result == (if x.Failure? then Failure(x.error) else Failure(Fatal))
      && s.asm == asm
  {
    var r := Remaining(c);
    DestinationReads(c, asm);
    var d := Optional(Destination, c, asm, Corrected);
    assert ComputeLine(c, asm, Corrected) == ComputeOperation(d, Corrected);
    if d.result.Success? {
      var k := DestinationOf(r).value.1;
      var dest := if d.result.value.Some? then d.result.value.value.field else DestNone;
      OperationAndFieldsRefuse(d, dest, r[k..]);
      ComputeOfParts(r);
    }
  }

  /** `OperationAndFieldsRead`, where the text is not there or the encoder
      refuses its operation. */
  lemma OperationAndFieldsRefuse(d: Step<Option<Value>>, dest: bv3, r: seq<Token>)
    requires d.result.Success? && (d.result.value.Some? ==> d.result.value.value.FieldResult?)
    requires dest == if d.result.value.Some? then d.result.value.value.field else DestNone
    requires Remaining(d.cursor) == r
    ensures var s := ComputeOperation(d, Corrected); var x := OperationOf(r);
      && (x.Failure? ==> s.result == Failure(x.error) && s.asm == d.asm)
      && (x.Success? ==>
            var flags := Encode(x.value.0, Corrected); var y := JumpOf(r[x.value.1..]);
            flags.Failure? || y.Failure? ==> s.result == Failure(Fatal) && s.asm == d.asm)
  {
    OperationAndFieldsRead(d, dest, r);
  }

  /** `ComputeOf` in three parts, each read where the one before stops. */
  lemma ComputeOfParts(r: seq<Token>)
    requires DestinationOf(r).Success?
    ensures var (dest, k) := DestinationOf(r).value; var x := OperationOf(r[k..]);
      && (x.Failure? ==> ComputeOf(r) == Failure(x.error))
      && (x.Success? ==>
            var y := JumpOf(r[k..][x.value.1..]);
            && (y.Failure? ==> ComputeOf(r) == Failure(y.error))
            && (y.Success? ==>
                  && ComputeOf(r) == Success(ComputeText(dest, x.value.0, y.value.0, k + x.value.1 + y.value.1))
                  && r[k + x.value.1 + y.value.1..] == r[k..][x.value.1..][y.value.1..]))
  {
    var k := DestinationOf(r).value.1;
    var x := OperationOf(r[k..]);
    if x.Success? {
      assert r[k..][x.value.1..] == r[k + x.value.1..];
    }
  }

  /** The C instruction after its optional destination: `OperationOf`, the
      encoding, then `JumpOf`. */
  lemma OperationAndFieldsRead(d: Step<Option<Value>>, dest: bv3, r: seq<Token>)
    requires d.result.Success? && (d.result.value.Some? ==> d.result.value.value.FieldResult?)
    requires dest == if d.result.value.Some? then d.result.value.value.field else DestNone
    requires Remaining(d.cursor) == r
    ensures var s := ComputeOperation(d, Corrected); var x := OperationOf(r);
      && (x.Failure? ==> s.result == Failure(x.error) && s.asm == d.asm)
      && (x.Success? ==>
            var flags := Encode(x.value.0, Corrected); var y := JumpOf(r[x.value.1..]);
            && (flags.Failure? ==> s.result == Failure(Fatal) && s.asm == d.asm)
            && (flags.Success? && y.Failure? ==> s.result == Failure(Fatal) && s.asm == d.asm)
            && (flags.Success? && y.Success? ==>
                  && s.result == Success(NoResult)
                  && s.asm == Emit(d.asm, Compute(dest, flags.value, y.value.0))
                  && Remaining(s.cursor) == r[x.value.1..][y.value.1..]))
  {
    OperationReads(d.cursor, d.asm);
    var m := Match(OperationChoice, d.cursor, d.asm, Corrected);
    assert ComputeOperation(d, Corrected) == ComputeFields(dest, m, Corrected);
    if m.result.Success? && Encode(m.result.value.1.desc, Corrected).Success? {
      JumpReads(m.cursor, m.asm);
    }
  }

  // ---------------------------------------------------------------------------
  // `match` takes the first alternative that applies.

  /** What the alternatives of a `match` from j on yield under `optional`, each
      tried where the one before it left off, as it is when that one yielded
      nothing. */
  ghost function Outcomes(choice: Choice, j: nat, t: Cursor, asm: Assembly, revision: Revision): (outs: seq<Result<Option<Value>>>)
    requires j <= |Alternatives(choice)|
    ensures |outs| == |Alternatives(choice)| - j
    decreases |Alternatives(choice)| - j
  {
    if j == |Alternatives(choice)| then []
    else
      var o := Optional(Alternatives(choice)[j], t, asm, revision);
      [o.result] + Outcomes(choice, j + 1, o.cursor, asm, revision)
  }

  /** `match` answers with the first alternative that yields something under
      `optional` (see `FirstYield`): a success (i, v) means that alternative i
      yielded v and every alternative before it yielded nothing; a fatal error
      means that some alternative was fatal and every one before it yielded
      nothing; a speculative failure means that every alternative yielded
      nothing. */
  lemma MatchPicksFirst(choice: Choice, c: Cursor, asm: Assembly, revision: Revision)
    ensures FirstYield(Outcomes(choice, 0, LookAhead(c), asm, revision), Match(choice, c, asm, revision).result, 0)
  {
    PicksFirstFrom(choice, 0, LookAhead(c), asm, revision);
  }

  /** An alternative that yields nothing leaves the program alone. */
  lemma DeclineKeeps(rule: Rule, c: Cursor, asm: Assembly, revision: Revision)
    ensures Optional(rule, c, asm, revision).result == Success(None) ==> Optional(rule, c, asm, revision).asm == asm
  {
    OptionalDisciplined(rule, c, asm, revision);
  }

  /** `optional` never answers with a soft failure: it turns one into
      "nothing". */
  lemma OptionalSettles(rule: Rule, c: Cursor, asm: Assembly, revision: Revision)
    ensures Optional(rule, c, asm, revision).result != Failure(Speculative)
  {
    var inner := Run(rule, LookAhead(c), asm, revision);
    assert Optional(rule, c, asm, revision) == Settle(inner);
  }

  /** The loop of `match` from alternative j on. */
  lemma {:induction false} PicksFirstFrom(choice: Choice, j: nat, t: Cursor, asm: Assembly, revision: Revision)
    requires j <= |Alternatives(choice)|
    ensures FirstYield(Outcomes(choice, j, t, asm, revision), TryAlternatives(choice, j, t, asm, revision).result, j)
    decreases |Alternatives(choice)| - j
  {
    var alts := Alternatives(choice);
    if j < |alts| {
      var o := Optional(alts[j], t, asm, revision);
      DeclineKeeps(alts[j], t, asm, revision);
      OptionalSettles(alts[j], t, asm, revision);
      assert TryAlternatives(choice, j, t, asm, revision) == Attempt(choice, j, o, revision);
      AttemptOutcome(choice, j, o, asm, revision);
      var rest := Outcomes(choice, j + 1, o.cursor, asm, revision);
      assert Outcomes(choice, j, t, asm, revision) == [o.result] + rest;
      if o.result == Success(None) {
        PicksFirstFrom(choice, j + 1, o.cursor, asm, revision);
      }
      FirstYieldCons(o.result, rest, TryAlternatives(choice, j + 1, o.cursor, asm, revision).result,
                     TryAlternatives(choice, j, t, asm, revision).result, j);
    } else {
      assert TryAlternatives(choice, j, t, asm, revision) == NoAlternative(t, asm, revision);
    }
  }

  /** `r`, the answer of the loop of `match` from alternative j on, is the first
      of the outcomes that is not "nothing". */
  predicate FirstYield(outs: seq<Result<Option<Value>>>, r: Result<(nat, Value)>, j: nat)
  {
    && (r.Success? ==>
          && j <= r.value.0 < j + |outs|
          && outs[r.value.0 - j] == Success(Some(r.value.1))
          && forall k | 0 <= k < r.value.0 - j :: outs[k] == Success(None))
    && (r == Failure(Fatal) ==> exists i | 0 <= i < |outs| :: FirstAnswer(outs, i))
    && (r == Failure(Speculative) ==> forall k | 0 <= k < |outs| :: outs[k] == Success(None))
  }

  /** Outcome i is fatal and every one before it is nothing. */
  predicate FirstAnswer(outs: seq<Result<Option<Value>>>, i: nat)
    requires i < |outs|
  {
    outs[i] == Failure(Fatal) && forall k | 0 <= k < i :: outs[k] == Success(None)
  }

  /** One more outcome in front: the answer is it, or it was nothing and the
      answer is that of the rest. */
  lemma FirstYieldCons(first: Result<Option<Value>>, rest: seq<Result<Option<Value>>>, later: Result<(nat, Value)>, r: Result<(nat, Value)>, j: nat)
    requires first.Failure? ==> r == Failure(first.error) && first.error != Speculative
    requires first.Success? && first.value.Some? ==> r == Failure(Internal) || r == Success((j, first.value.value))
    requires first == Success(None) ==> r == later && FirstYield(rest, later, j + 1)
    ensures FirstYield([first] + rest, r, j)
  {
    var outs := [first] + rest;
    assert outs[0] == first;
    if first.Success? && first.value.Some? && r.Success? {
      assert outs[r.value.0 - j] == first;
    }
    if first == Failure(Fatal) {
      assert FirstAnswer(outs, 0);
    }
    if first == Success(None) {
      if r.Success? {
        assert outs[r.value.0 - j] == rest[r.value.0 - (j + 1)];
        forall k | 0 <= k < r.value.0 - j
          ensures outs[k] == Success(None)
        {
          if k > 0 {
            assert outs[k] == rest[k - 1];
          }
        }
      } else if r == Failure(Fatal) {
        var i :| 0 <= i < |rest| && FirstAnswer(rest, i);
        assert outs[i + 1] == Failure(Fatal);
        forall k | 0 <= k < i + 1
          ensures outs[k] == Success(None)
        {
          if k > 0 {
            assert outs[k] == rest[k - 1];
          }
        }
        assert FirstAnswer(outs, i + 1);
      } else if r == Failure(Speculative) {
        forall k | 0 <= k < |outs|
          ensures outs[k] == Success(None)
        {
          if k > 0 {
            assert outs[k] == rest[k - 1];
          }
        }
      }
    }
  }

  /** One turn of the loop of `match`, by what the alternative yielded under
      `optional`: an error ends the loop, a value is the answer unless the
      buffer cannot be closed, and nothing hands over to the next alternative. */
  lemma AttemptOutcome(choice: Choice, j: nat, o: Step<Option<Value>>, asm: Assembly, revision: Revision)
    requires j < |Alternatives(choice)|
    requires o.result.Success? && o.result.value.Some? ==> Produces(Alternatives(choice)[j], o.result.value.value)
    requires o.result == Success(None) ==> o.asm == asm
    ensures var s := Attempt(choice, j, o, revision);
      && (o.result.Failure? ==> s.result == Failure(o.result.error))
      && (o.result.Success? && o.result.value.Some? ==>
            s.result == Failure(Internal) || s.result == Success((j, o.result.value.value)))
      && (o.result == Success(None) ==> s == TryAlternatives(choice, j + 1, o.cursor, asm, revision))
  {
  }
}
