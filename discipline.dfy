/** How the look-ahead buffers keep track of what was consumed. Every token a
    rule takes is recorded in the buffers opened since the rule began, so a
    rollback gives back exactly tokens taken after the matching look-ahead, in
    order. From that: no rule ever rolls back without a buffer (the internal
    error cannot happen), the cursor only moves forward, every successful rule
    consumes at least one token, and a failed rule leaves the program alone.
    With the corrected `match` the buffers are also balanced and a failed
    `optional` restores the cursor exactly. */
module Discipline {
  import opened Base
  import opened Instructions
  import opened TokenCursor
  import opened Grammar

  /** All buffered tokens, outermost buffer first. */
  function Flatten(stack: seq<seq<Token>>): seq<Token>
  {
    if |stack| == 0 then [] else Flatten(Pop(stack)) + Top(stack)
  }

  lemma {:induction false} FlattenAppend(a: seq<seq<Token>>, b: seq<seq<Token>>)
    ensures Flatten(a + b) == Flatten(a) + Flatten(b)
    decreases |b|
  {
    if |b| == 0 {
      assert a + b == a;
    } else {
      assert Pop(a + b) == a + Pop(b);
      assert Top(a + b) == Top(b);
      FlattenAppend(a, Pop(b));
    }
  }

  /** Purging the innermost of at least two buffers keeps the tokens in order. */
  lemma FlattenPurge(stack: seq<seq<Token>>)
    requires |stack| >= 2
    ensures Flatten(AppendToTop(Pop(stack), Top(stack))) == Flatten(stack)
  {
    var p, t := Pop(stack), Top(stack);
    var q, u := Pop(p), Top(p);
    SplitLast(stack);
    SplitLast(p);
    FlattenSnoc(q, u + t);
    FlattenSnoc(q, u);
    FlattenSnoc(p, t);
    ConcatAssociates(Flatten(q), u, t);
  }

  lemma SplitLast(stack: seq<seq<Token>>)
    requires |stack| > 0
    ensures stack == Pop(stack) + [Top(stack)]
  {
  }

  lemma ConcatAssociates(a: seq<Token>, b: seq<Token>, c: seq<Token>)
    ensures a + (b + c) == (a + b) + c
  {
  }

  lemma FlattenSnoc(stack: seq<seq<Token>>, tokens: seq<Token>)
    ensures Flatten(stack + [tokens]) == Flatten(stack) + tokens
  {
    assert Pop(stack + [tokens]) == stack;
  }

  /** The tokens buffered, outermost first, followed by those still to come. */
  function Tape(c: Cursor): seq<Token>
  {
    Flatten(c.stack) + Remaining(c)
  }

  /** d is a later state of c: it has no more tokens to deliver, the buffers c
      had are still open and those below c's innermost are untouched, and while
      a buffer is open no token is lost (every consumed token is recorded). */
  predicate Advanced(c: Cursor, d: Cursor)
  {
    var n := |c.stack|;
    && |Remaining(d)| <= |Remaining(c)|
    && |d.stack| >= n
    && (n > 0 ==> d.stack[..n - 1] == c.stack[..n - 1] && Tape(d) == Tape(c))
  }

  /** d runs inside at least one buffer opened on top of c's: c's buffers are
      untouched and no token consumed since c is lost. */
  predicate Nested(c: Cursor, d: Cursor)
  {
    var n := |c.stack|;
    && |Remaining(d)| <= |Remaining(c)|
    && |d.stack| > n && d.stack[..n] == c.stack
    && Tape(d) == Tape(c)
  }

  lemma AdvancedRefl(c: Cursor, d: Cursor)
    requires Remaining(d) == Remaining(c) && d.stack == c.stack
    ensures Advanced(c, d)
  {
  }

  lemma AdvancedTrans(a: Cursor, b: Cursor, c: Cursor)
    requires Advanced(a, b) && Advanced(b, c)
    ensures Advanced(a, c)
  {
    var n := |a.stack|;
    var m := |b.stack|;
    if n > 0 {
      assert c.stack[..m - 1][..n - 1] == c.stack[..n - 1];
      assert b.stack[..m - 1][..n - 1] == b.stack[..n - 1];
    }
  }

  /** The cursor after delivering `tokens` and recording them in the innermost buffer. */
  lemma AppendAdvanced(c: Cursor, d: Cursor, tokens: seq<Token>)
    requires Remaining(c) == tokens + Remaining(d)
    requires d.stack == AppendToTop(c.stack, tokens)
    ensures Advanced(c, d) && |d.stack| == |c.stack|
  {
    if |c.stack| > 0 {
      assert Flatten(d.stack) == Flatten(Pop(c.stack)) + (Top(c.stack) + tokens);
      assert Flatten(c.stack) == Flatten(Pop(c.stack)) + Top(c.stack);
      assert d.stack[..|c.stack| - 1] == Pop(d.stack);
    }
  }

  lemma NextTokenAdvances(c: Cursor)
    ensures Advanced(c, NextToken(c).cursor) && |NextToken(c).cursor.stack| == |c.stack|
  {
    var d := NextToken(c).cursor;
    if |Remaining(c)| == 0 {
      AdvancedRefl(c, d);
    } else {
      AppendAdvanced(c, d, [Remaining(c)[0]]);
    }
  }

  lemma ExpectAdvances(c: Cursor, kind: Kind, allowed: Allowed)
    ensures var e := Expect(c, kind, allowed);
      Advanced(c, e.cursor) && |e.cursor.stack| == |c.stack|
      && (e.result.Success? ==> |Remaining(e.cursor)| < |Remaining(c)|)
  {
    var d := Expect(c, kind, allowed).cursor;
    if |Remaining(c)| == 0 {
      AdvancedRefl(c, d);
    } else {
      AppendAdvanced(c, d, [Remaining(c)[0]]);
    }
  }

  lemma LookAheadNested(c: Cursor)
    ensures Nested(c, LookAhead(c))
  {
    var t := LookAhead(c);
    assert Flatten(t.stack) == Flatten(c.stack) + [];
    assert t.stack[..|c.stack|] == c.stack;
  }

  lemma NestedAdvance(c: Cursor, t: Cursor, o: Cursor)
    requires Nested(c, t) && Advanced(t, o)
    ensures Nested(c, o)
  {
    var n := |c.stack|;
    var m := |t.stack|;
    assert o.stack[..m - 1][..n] == o.stack[..n];
    assert t.stack[..m - 1][..n] == t.stack[..n];
  }

  lemma NestedIsAdvanced(c: Cursor, d: Cursor)
    requires Nested(c, d)
    ensures Advanced(c, d)
  {
    var n := |c.stack|;
    if n > 0 {
      assert d.stack[..n][..n - 1] == d.stack[..n - 1];
    }
  }

  /** rollback(true) at the end of a successful attempt. */
  lemma PurgeNested(c: Cursor, d: Cursor)
    requires Nested(c, d)
    ensures Rollback(d, true).Success?
    ensures var r := Rollback(d, true).value;
      Advanced(c, r) && Remaining(r) == Remaining(d)
      && (|d.stack| == |c.stack| + 1 ==> |r.stack| == |c.stack|)
  {
    var n := |c.stack|;
    var r := Rollback(d, true).value;
    if |d.stack| >= 2 {
      FlattenPurge(d.stack);
      assert r.stack[..|r.stack| - 1] == Pop(d.stack)[..|d.stack| - 2];
      if n > 0 {
        assert r.stack[..n - 1] == r.stack[..|r.stack| - 1][..n - 1];
        assert d.stack[..n - 1] == d.stack[..n][..n - 1];
        assert Pop(d.stack)[..|d.stack| - 2][..n - 1] == d.stack[..n - 1];
      }
    }
  }

  /** rollback(false) at the end of a failed attempt. */
  lemma RestoreNested(c: Cursor, d: Cursor)
    requires Nested(c, d)
    ensures Rollback(d, false).Success?
    ensures var r := Rollback(d, false).value;
      Advanced(c, r)
      && (|d.stack| == |c.stack| + 1 ==> r.stack == c.stack && Remaining(r) == Remaining(c))
  {
    var n := |c.stack|;
    var r := Rollback(d, false).value;
    assert Flatten(d.stack) == Flatten(Pop(d.stack)) + Top(d.stack);
    assert Tape(r) == Tape(d);
    assert r.stack[..n] == c.stack by {
      assert r.stack[..n] == d.stack[..n];
    }
    assert r.stack == c.stack + r.stack[n..];
    FlattenAppend(c.stack, r.stack[n..]);
    assert Remaining(r) == Tape(c)[|Flatten(r.stack)|..];
    assert Remaining(c) == Tape(c)[|Flatten(c.stack)|..];
    if n > 0 {
      assert r.stack[..n - 1] == r.stack[..n][..n - 1];
    }
  }

  // ---------------------------------------------------------------------------
  // The rules.

  /** The step kept the discipline: it only moved the cursor forward, raised no
      internal error, changed the program only by succeeding and, in the
      corrected parser, left as many buffers open as it found (a fatal error
      abandons the parse and may leave buffers open). */
  predicate Disciplined<T>(c: Cursor, asm: Assembly, s: Step<T>, revision: Revision)
  {
    Advanced(c, s.cursor)
    && s.result != Failure(Internal)
    && (s.result.Failure? ==> s.asm == asm)
    && (revision == Corrected && s.result != Failure(Fatal) ==> |s.cursor.stack| == |c.stack|)
  }

  /** A step that succeeds has consumed at least one token. */
  predicate Progress<T>(c: Cursor, s: Step<T>)
  {
    s.result.Success? ==> |Remaining(s.cursor)| < |Remaining(c)|
  }

  lemma SingleDisciplined(c: Cursor, asm: Assembly, kind: Kind, revision: Revision)
    ensures Disciplined(c, asm, Single(c, asm, kind), revision) && Progress(c, Single(c, asm, kind))
  {
    ExpectAdvances(c, kind, AnyValue);
  }

  lemma ParseBooleanDisciplined(c: Cursor, asm: Assembly, revision: Revision)
    ensures Disciplined(c, asm, ParseBoolean(c, asm), revision) && Progress(c, ParseBoolean(c, asm))
  {
    ExpectAdvances(c, NumberKind, AnyValue);
  }

  lemma ParseRegisterDisciplined(c: Cursor, asm: Assembly, revision: Revision)
    ensures Disciplined(c, asm, ParseRegister(c, asm), revision) && Progress(c, ParseRegister(c, asm))
  {
    ExpectAdvances(c, IdentifierKind, AnyValue);
  }

  lemma LiteralAddressDisciplined(c: Cursor, asm: Assembly, revision: Revision)
    ensures Disciplined(c, asm, LiteralAddress(c, asm), revision) && Progress(c, LiteralAddress(c, asm))
  {
    ExpectAdvances(c, NumberKind, AnyValue);
  }

  lemma SymbolAddressDisciplined(c: Cursor, asm: Assembly, revision: Revision)
    ensures Disciplined(c, asm, SymbolAddress(c, asm), revision) && Progress(c, SymbolAddress(c, asm))
  {
    ExpectAdvances(c, IdentifierKind, AnyValue);
  }

  /** The cursor a rule of plain `expect` calls ends on: moved forward, with the
      same buffers open, and past at least one token if the rule succeeded. */
  predicate Moved<T>(c: Cursor, s: Step<T>)
  {
    Advanced(c, s.cursor) && |s.cursor.stack| == |c.stack| && Progress(c, s)
  }

  lemma DestinationPartMoves(c: Cursor, asm: Assembly)
    ensures Moved(c, DestinationPart(c, asm))
  {
    var e := Expect(c, IdentifierKind, AnyValue);
    ExpectAdvances(c, IdentifierKind, AnyValue);
    if e.result.Success? {
      ExpectAdvances(e.cursor, AssignmentKind, AnyValue);
      AdvancedTrans(c, e.cursor, Expect(e.cursor, AssignmentKind, AnyValue).cursor);
    }
  }

  lemma DestinationPartDisciplined(c: Cursor, asm: Assembly, revision: Revision)
    ensures Disciplined(c, asm, DestinationPart(c, asm), revision) && Progress(c, DestinationPart(c, asm))
  {
    DestinationPartMoves(c, asm);
  }

  lemma JumpPartMoves(c: Cursor, asm: Assembly)
    ensures Moved(c, JumpPart(c, asm))
  {
    var e := Expect(c, JumpKind, AnyValue);
    ExpectAdvances(c, JumpKind, AnyValue);
    if e.result.Success? {
      ExpectAdvances(e.cursor, IdentifierKind, AnyValue);
      AdvancedTrans(c, e.cursor, Expect(e.cursor, IdentifierKind, AnyValue).cursor);
    }
  }

  lemma JumpPartDisciplined(c: Cursor, asm: Assembly, revision: Revision)
    ensures Disciplined(c, asm, JumpPart(c, asm), revision) && Progress(c, JumpPart(c, asm))
  {
    JumpPartMoves(c, asm);
  }

  lemma LabelLineMoves(c: Cursor, asm: Assembly)
    ensures Moved(c, LabelLine(c, asm))
  {
    var open := Expect(c, OpenDeclarationKind, AnyValue);
    ExpectAdvances(c, OpenDeclarationKind, AnyValue);
    if open.result.Success? {
      var id := Expect(open.cursor, IdentifierKind, AnyValue);
      ExpectAdvances(open.cursor, IdentifierKind, AnyValue);
      AdvancedTrans(c, open.cursor, id.cursor);
      if id.result.Success? {
        ExpectAdvances(id.cursor, CloseDeclarationKind, AnyValue);
        AdvancedTrans(c, id.cursor, Expect(id.cursor, CloseDeclarationKind, AnyValue).cursor);
      }
    }
  }

  lemma LabelLineDisciplined(c: Cursor, asm: Assembly, revision: Revision)
    ensures Disciplined(c, asm, LabelLine(c, asm), revision) && Progress(c, LabelLine(c, asm))
  {
    LabelLineMoves(c, asm);
  }

  lemma {:induction false} RunDisciplined(rule: Rule, c: Cursor, asm: Assembly, revision: Revision)
    ensures Disciplined(c, asm, Run(rule, c, asm, revision), revision)
    ensures Progress(c, Run(rule, c, asm, revision))
    decreases Height(rule), 0, 3
  {
    match rule
    case ExpectSeparator => SingleDisciplined(c, asm, SeparatorKind, revision);
    case ExpectEnd => SingleDisciplined(c, asm, EOFKind, revision);
    case BooleanOperand => ParseBooleanDisciplined(c, asm, revision);
    case RegisterOperand => ParseRegisterDisciplined(c, asm, revision);
    case NumberLiteral => LiteralAddressDisciplined(c, asm, revision);
    case SymbolReference => SymbolAddressDisciplined(c, asm, revision);
    case AddressInstruction => AddressLineDisciplined(c, asm, revision);
    case Destination => DestinationPartDisciplined(c, asm, revision);
    case UnaryExpression => UnaryPartDisciplined(c, asm, revision);
    case BinaryExpression => BinaryPartDisciplined(c, asm, revision);
    case ConstantExpression => ConstantPartDisciplined(c, asm, revision);
    case JumpSuffix => JumpPartDisciplined(c, asm, revision);
    case ComputeInstruction => ComputeLineDisciplined(c, asm, revision);
    case LabelDeclaration => LabelLineDisciplined(c, asm, revision);
  }

  lemma {:induction false} AddressLineDisciplined(c: Cursor, asm: Assembly, revision: Revision)
    ensures Disciplined(c, asm, AddressLine(c, asm, revision), revision)
    ensures Progress(c, AddressLine(c, asm, revision))
    decreases 1, 0, 0
  {
    var e := Expect(c, LoadMarkerKind, AnyValue);
    ExpectAdvances(c, LoadMarkerKind, AnyValue);
    if e.result.Success? {
      MatchDisciplined(LabelOrNumber, e.cursor, asm, revision);
      AdvancedTrans(c, e.cursor, Match(LabelOrNumber, e.cursor, asm, revision).cursor);
    }
  }

  lemma {:induction false} UnaryPartDisciplined(c: Cursor, asm: Assembly, revision: Revision)
    ensures Disciplined(c, asm, UnaryPart(c, asm, revision), revision)
    ensures Progress(c, UnaryPart(c, asm, revision))
    decreases 1, 0, 0
  {
    var e := Expect(c, OperationKind, UnaryOperators);
    ExpectAdvances(c, OperationKind, UnaryOperators);
    if e.result.Success? {
      MatchDisciplined(RegisterOrConstant, e.cursor, asm, revision);
      AdvancedTrans(c, e.cursor, Match(RegisterOrConstant, e.cursor, asm, revision).cursor);
    }
  }

  lemma {:induction false} BinaryPartDisciplined(c: Cursor, asm: Assembly, revision: Revision)
    ensures Disciplined(c, asm, BinaryPart(c, asm, revision), revision)
    ensures Progress(c, BinaryPart(c, asm, revision))
    decreases 1, 0, 2
  {
    MatchDisciplined(RegisterOrConstant, c, asm, revision);
    BinaryOperatorDisciplined(c, asm, Match(RegisterOrConstant, c, asm, revision), revision);
  }

  lemma {:induction false} BinaryOperatorDisciplined(c: Cursor, asm: Assembly, first: Step<(nat, Value)>, revision: Revision)
    requires first.result.Success? ==> first.result.value.1.OperandResult?
    requires Disciplined(c, asm, first, revision) && Progress(c, first) && first.asm == asm
    ensures Disciplined(c, asm, BinaryOperator(first, revision), revision)
    ensures Progress(c, BinaryOperator(first, revision))
    decreases 1, 0, 1
  {
    if first.result.Success? {
      var e := Expect(first.cursor, OperationKind, BinaryOperators);
      ExpectAdvances(first.cursor, OperationKind, BinaryOperators);
      AdvancedTrans(c, first.cursor, e.cursor);
      if e.result.Success? {
        var second := Match(RegisterOrConstant, e.cursor, asm, revision);
        MatchDisciplined(RegisterOrConstant, e.cursor, asm, revision);
        AdvancedTrans(c, e.cursor, second.cursor);
      }
    }
  }

  lemma {:induction false} ConstantPartDisciplined(c: Cursor, asm: Assembly, revision: Revision)
    ensures Disciplined(c, asm, ConstantPart(c, asm, revision), revision)
    ensures Progress(c, ConstantPart(c, asm, revision))
    decreases 1, 0, 0
  {
    MatchDisciplined(RegisterOrConstant, c, asm, revision);
  }

  lemma {:induction false} ComputeLineDisciplined(c: Cursor, asm: Assembly, revision: Revision)
    ensures Disciplined(c, asm, ComputeLine(c, asm, revision), revision)
    ensures Progress(c, ComputeLine(c, asm, revision))
    decreases 2, 0, 2
  {
    OptionalDisciplined(Destination, c, asm, revision);
    ComputeOperationDisciplined(c, asm, Optional(Destination, c, asm, revision), revision);
  }

  lemma {:induction false} ComputeOperationDisciplined(c: Cursor, asm: Assembly, d: Step<Option<Value>>, revision: Revision)
    requires d.result.Success? && d.result.value.Some? ==> d.result.value.value.FieldResult?
    requires OptionalKept(c, asm, d, revision) && d.asm == asm
    ensures Disciplined(c, asm, ComputeOperation(d, revision), revision)
    ensures Progress(c, ComputeOperation(d, revision))
    decreases 2, 0, 1
  {
    if d.result.Success? {
      var dest := if d.result.value.Some? then d.result.value.value.field else DestNone;
      var m := Match(OperationChoice, d.cursor, asm, revision);
      MatchDisciplined(OperationChoice, d.cursor, asm, revision);
      AdvancedTrans(c, d.cursor, m.cursor);
      ComputeFieldsDisciplined(c, asm, dest, m, revision);
    }
  }

  lemma {:induction false} ComputeFieldsDisciplined(c: Cursor, asm: Assembly, dest: bv3, m: Step<(nat, Value)>, revision: Revision)
    requires m.result.Success? ==> m.result.value.1.ExpressionResult?
    requires Disciplined(c, asm, m, revision) && Progress(c, m) && m.asm == asm
    ensures Disciplined(c, asm, ComputeFields(dest, m, revision), revision)
    ensures Progress(c, ComputeFields(dest, m, revision))
    decreases 2, 0, 0
  {
    if m.result.Success? && Encode(m.result.value.1.desc, revision).Success? {
      var flags := Encode(m.result.value.1.desc, revision).value;
      OptionalDisciplined(JumpSuffix, m.cursor, asm, revision);
      ComputeJumpDisciplined(c, asm, m.cursor, dest, flags, Optional(JumpSuffix, m.cursor, asm, revision), revision);
    }
  }

  lemma ComputeJumpDisciplined(c: Cursor, asm: Assembly, before: Cursor, dest: bv3, flags: bv7, j: Step<Option<Value>>, revision: Revision)
    requires j.result.Success? && j.result.value.Some? ==> j.result.value.value.FieldResult?
    requires Advanced(c, before) && |Remaining(before)| < |Remaining(c)|
    requires revision == Corrected ==> |before.stack| == |c.stack|
    requires OptionalKept(before, asm, j, revision) && j.asm == asm
    ensures Disciplined(c, asm, ComputeJump(dest, flags, j), revision)
    ensures Progress(c, ComputeJump(dest, flags, j))
  {
    AdvancedTrans(c, before, j.cursor);
  }

  /** What `optional` keeps: the discipline, only fatal errors, progress when it yields a value,
      the program when it yields nothing and, in the corrected parser, the
      cursor exactly when it yields nothing. */
  predicate OptionalKept(c: Cursor, asm: Assembly, s: Step<Option<Value>>, revision: Revision)
  {
    && Disciplined(c, asm, s, revision)
    && (s.result.Failure? ==> s.result.error == Fatal)
    && (s.result.Success? && s.result.value.Some? ==> |Remaining(s.cursor)| < |Remaining(c)|)
    && (s.result == Success(None) ==> s.asm == asm)
    && (revision == Corrected && s.result == Success(None) ==>
          Remaining(s.cursor) == Remaining(c) && s.cursor.stack == c.stack)
  }

  lemma {:induction false} OptionalDisciplined(rule: Rule, c: Cursor, asm: Assembly, revision: Revision)
    ensures OptionalKept(c, asm, Optional(rule, c, asm, revision), revision)
    decreases Height(rule), 1, 0
  {
    RunDisciplined(rule, LookAhead(c), asm, revision);
    SettleDisciplined(c, asm, Run(rule, LookAhead(c), asm, revision), revision);
  }

  lemma SettleDisciplined(c: Cursor, asm: Assembly, inner: Step<Value>, revision: Revision)
    requires Disciplined(LookAhead(c), asm, inner, revision) && Progress(LookAhead(c), inner)
    ensures OptionalKept(c, asm, Settle(inner), revision)
  {
    var t := LookAhead(c);
    LookAheadNested(c);
    NestedAdvance(c, t, inner.cursor);
    if inner.result == Failure(Fatal) {
      NestedIsAdvanced(c, inner.cursor);
    } else if inner.result.Success? {
      PurgeNested(c, inner.cursor);
    } else {
      RestoreNested(c, inner.cursor);
    }
  }

  lemma {:induction false} TryAlternativesDisciplined(choice: Choice, i: nat, c: Cursor, t: Cursor, asm: Assembly, revision: Revision)
    requires i <= |Alternatives(choice)|
    requires Nested(c, t)
    requires revision == Corrected ==> |t.stack| == |c.stack| + 1
    ensures Disciplined(c, asm, TryAlternatives(choice, i, t, asm, revision), revision)
    ensures Progress(c, TryAlternatives(choice, i, t, asm, revision))
    decreases ChoiceHeight(choice), 2, |Alternatives(choice)| - i, 1
  {
    var alts := Alternatives(choice);
    if i == |alts| {
      NoAlternativeDisciplined(c, t, asm, revision);
    } else {
      OptionalDisciplined(alts[i], t, asm, revision);
      AttemptDisciplined(choice, i, c, t, Optional(alts[i], t, asm, revision), asm, revision);
    }
  }

  lemma NoAlternativeDisciplined(c: Cursor, t: Cursor, asm: Assembly, revision: Revision)
    requires Nested(c, t)
    requires revision == Corrected ==> |t.stack| == |c.stack| + 1
    ensures Disciplined(c, asm, NoAlternative(t, asm, revision), revision)
  {
    match revision
    case AsWritten =>
      NestedIsAdvanced(c, t);
      NextTokenAdvances(t);
      AdvancedTrans(c, t, NextToken(t).cursor);
    case Corrected =>
      RestoreNested(c, t);
      var r := Rollback(t, false).value;
      NextTokenAdvances(r);
      AdvancedTrans(c, r, NextToken(r).cursor);
  }

  lemma {:induction false} AttemptDisciplined(choice: Choice, i: nat, c: Cursor, t: Cursor, o: Step<Option<Value>>, asm: Assembly, revision: Revision)
    requires i < |Alternatives(choice)|
    requires o.result.Success? && o.result.value.Some? ==> Produces(Alternatives(choice)[i], o.result.value.value)
    requires Nested(c, t) && OptionalKept(t, asm, o, revision)
    requires revision == Corrected ==> |t.stack| == |c.stack| + 1
    ensures Disciplined(c, asm, Attempt(choice, i, o, revision), revision)
    ensures Progress(c, Attempt(choice, i, o, revision))
    decreases ChoiceHeight(choice), 2, |Alternatives(choice)| - i, 0
  {
    NestedAdvance(c, t, o.cursor);
    if o.result.Failure? {
      NestedIsAdvanced(c, o.cursor);
    } else if o.result.value.Some? {
      PurgeNested(c, o.cursor);
    } else {
      TryAlternativesDisciplined(choice, i + 1, c, o.cursor, asm, revision);
    }
  }

  lemma {:induction false} MatchDisciplined(choice: Choice, c: Cursor, asm: Assembly, revision: Revision)
    ensures Disciplined(c, asm, Match(choice, c, asm, revision), revision)
    ensures Progress(c, Match(choice, c, asm, revision))
    decreases ChoiceHeight(choice), 3, 0
  {
    LookAheadNested(c);
    TryAlternativesDisciplined(choice, 0, c, LookAhead(c), asm, revision);
  }
}
