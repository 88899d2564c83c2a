/** What each rule does to the tokens it reads and to the program being
    assembled, and the invariant of the symbol table that `parse` keeps:
    new names receive the placeholders -1, -2, ... in order of first use, and
    every negative address in the program is one of them. */
module Effects {
  import opened Base
  import opened Instructions
  import opened TokenCursor
  import opened Grammar
  import opened Discipline
  import opened Driver

  // ---------------------------------------------------------------------------
  // The rules that read plain tokens, stated on the tokens still to come.

  /** parseBoolean: a number 0 or 1 is the constant, any other number is fatal. */
  lemma ParseBooleanReads(c: Cursor, asm: Assembly)
    ensures var s := ParseBoolean(c, asm); var r := Remaining(c);
      s.result == (if |r| == 0 || !r[0].Number? then Failure(Speculative)
                   else if r[0].value == 0 then Success(OperandResult(Zero))
                   else if r[0].value == 1 then Success(OperandResult(One))
                   else Failure(Fatal))
  {
  }

  /** parseRegister: the names D, A and M are registers, any other name is fatal. */
  lemma ParseRegisterReads(c: Cursor, asm: Assembly)
    ensures var s := ParseRegister(c, asm); var r := Remaining(c);
      s.result == (if |r| == 0 || !r[0].Identifier? then Failure(Speculative)
                   else if r[0].name == "D" then Success(OperandResult(Reg(D)))
                   else if r[0].name == "A" then Success(OperandResult(Reg(A)))
                   else if r[0].name == "M" then Success(OperandResult(Reg(M)))
                   else Failure(Fatal))
  {
  }

  /** `@` digits appends `num & maxNumberLiteral`. */
  lemma LiteralAddressReads(c: Cursor, asm: Assembly)
    ensures var s := LiteralAddress(c, asm); var r := Remaining(c);
      && (s.result.Success? <==> |r| > 0 && r[0].Number?)
      && (s.result.Failure? ==> s.result.error == Speculative && s.asm == asm)
      && (s.result.Success? ==> s.asm == Emit(asm, Address(Clip(r[0].value))))
  {
  }

  /** `@` name appends the name's pointer. */
  lemma SymbolAddressReads(c: Cursor, asm: Assembly)
    ensures var s := SymbolAddress(c, asm); var r := Remaining(c);
      && (s.result.Success? <==> |r| > 0 && r[0].Identifier?)
      && (s.result.Failure? ==> s.result.error == Speculative && s.asm == asm)
      && (s.result.Success? ==> s.asm == Reference(asm, r[0].name))
  {
  }

  /** `dest =`: a known mnemonic gives its field, an unknown one is fatal, and
      anything but a name followed by `=` does not apply. */
  lemma DestinationPartReads(c: Cursor, asm: Assembly)
    ensures var s := DestinationPart(c, asm); var r := Remaining(c);
      s.result == (if |r| < 2 || !r[0].Identifier? || r[1] != Assignment then Failure(Speculative)
                   else if r[0].name in DestinationMnemonics then Success(FieldResult(DestinationMnemonics[r[0].name]))
                   else Failure(Fatal))
      && (s.result.Success? ==> Remaining(s.cursor) == r[2..])
  {
    var e := Expect(c, IdentifierKind, AnyValue);
    if e.result.Success? {
      assert Remaining(e.cursor) == Remaining(c)[1..];
    }
  }

  /** `; jump`: a known mnemonic gives its field, an unknown one is fatal, and
      anything but `;` followed by a name does not apply. */
  lemma JumpPartReads(c: Cursor, asm: Assembly)
    ensures var s := JumpPart(c, asm); var r := Remaining(c);
      s.result == (if |r| < 2 || r[0] != JumpMarker || !r[1].Identifier? then Failure(Speculative)
                   else if r[1].name in JumpMnemonics then Success(FieldResult(JumpMnemonics[r[1].name]))
                   else Failure(Fatal))
      && (s.result.Success? ==> Remaining(s.cursor) == r[2..])
  {
    var e := Expect(c, JumpKind, AnyValue);
    if e.result.Success? {
      assert Remaining(e.cursor) == Remaining(c)[1..];
    }
  }

  /** `(LABEL)` applies exactly to an opening parenthesis, a name and a
      closing parenthesis. */
  lemma LabelLineApplies(c: Cursor, asm: Assembly)
    ensures var s := LabelLine(c, asm); var r := Remaining(c);
      s.result.Success? <==> |r| >= 3 && r[0] == OpenDeclaration && r[1].Identifier? && r[2] == CloseDeclaration
  {
    var r := Remaining(c);
    var open := Expect(c, OpenDeclarationKind, AnyValue);
    if |r| > 0 && r[0] == OpenDeclaration {
      assert open.result.Success?;
      assert Remaining(open.cursor) == r[1..];
      LabelNameApplies(open.cursor, asm);
    } else {
      assert open.result.Failure?;
    }
  }

  /** The rest of a label line once `(` has been read. */
  lemma LabelNameApplies(c: Cursor, asm: Assembly)
    ensures var id := Expect(c, IdentifierKind, AnyValue); var r := Remaining(c);
      id.result.Success? && Expect(id.cursor, CloseDeclarationKind, AnyValue).result.Success?
      <==> |r| >= 2 && r[0].Identifier? && r[1] == CloseDeclaration
  {
    var id := Expect(c, IdentifierKind, AnyValue);
    if id.result.Success? {
      assert Remaining(id.cursor) == Remaining(c)[1..];
    }
  }

  /** A label line that does not apply leaves everything to the alternatives
      after it. */
  lemma LabelLineRejects(c: Cursor, asm: Assembly)
    ensures var s := LabelLine(c, asm);
      s.result.Failure? ==> s.result.error == Speculative && s.asm == asm
  {
  }

  /** `(LABEL)` records the current length of the instruction list under the
      label's name and appends nothing. */
  lemma LabelLineDeclares(c: Cursor, asm: Assembly)
    ensures var s := LabelLine(c, asm); var r := Remaining(c);
      s.result.Success? ==> |r| >= 2 && s.asm == Declare(asm, r[1].name)
  {
    var open := Expect(c, OpenDeclarationKind, AnyValue);
    if open.result.Success? {
      assert Remaining(open.cursor) == Remaining(c)[1..];
    }
  }

  // ---------------------------------------------------------------------------
  // What a rule does to the program when it succeeds (when it fails it leaves
  // the program alone: `Disciplined`).

  /** The change a successful rule makes: an A instruction with a clipped
      literal or a name's pointer, a C instruction whose operation field is the
      encoder's answer, a label, or nothing. */
  ghost predicate Effect(rule: Rule, before: Assembly, after: Assembly, revision: Revision)
  {
    match rule
    case NumberLiteral => Loads(before, after)
    case SymbolReference => Refers(before, after)
    case AddressInstruction => Loads(before, after) || Refers(before, after)
    case ComputeInstruction => Computes(before, after, revision)
    case LabelDeclaration => Labels(before, after)
    case _ => after == before
  }

  ghost predicate Computes(before: Assembly, after: Assembly, revision: Revision)
  {
    exists dest: bv3, desc: OperationDescription, jump: bv3 ::
      Encode(desc, revision).Success? && after == Emit(before, Compute(dest, Encode(desc, revision).value, jump))
  }

  ghost predicate Labels(before: Assembly, after: Assembly)
  {
    exists name: string :: after == Declare(before, name)
  }

  ghost predicate Loads(before: Assembly, after: Assembly)
  {
    exists n: nat | n <= MaxNumberLiteral :: after == Emit(before, Address(n))
  }

  ghost predicate Refers(before: Assembly, after: Assembly)
  {
    exists name: string :: after == Reference(before, name)
  }

  lemma {:induction false} RunEffect(rule: Rule, c: Cursor, asm: Assembly, revision: Revision)
    ensures var s := Run(rule, c, asm, revision);
      s.result.Success? ==> Effect(rule, asm, s.asm, revision)
    decreases Height(rule), 0, 3
  {
    match rule
    case NumberLiteral => LiteralAddressEffect(c, asm, revision);
    case SymbolReference => SymbolAddressEffect(c, asm, revision);
    case AddressInstruction => AddressLineEffect(c, asm, revision);
    case ComputeInstruction => ComputeLineEffect(c, asm, revision);
    case LabelDeclaration => LabelLineEffect(c, asm, revision);
    case _ =>
  }

  lemma LabelLineEffect(c: Cursor, asm: Assembly, revision: Revision)
    ensures var s := LabelLine(c, asm);
      s.result.Success? ==> Effect(LabelDeclaration, asm, s.asm, revision)
  {
    var s := LabelLine(c, asm);
    LabelLineApplies(c, asm);
    LabelLineDeclares(c, asm);
    if s.result.Success? {
      var name := Remaining(c)[1].name;
      assert s.asm == Declare(asm, name);
    }
  }

  lemma LiteralAddressEffect(c: Cursor, asm: Assembly, revision: Revision)
    ensures var s := LiteralAddress(c, asm);
      s.result.Success? ==> Effect(NumberLiteral, asm, s.asm, revision)
  {
    var e := Expect(c, NumberKind, AnyValue);
    if e.result.Success? {
      assert LiteralAddress(c, asm).asm == Emit(asm, Address(Clip(e.result.value.value)));
    }
  }

  lemma SymbolAddressEffect(c: Cursor, asm: Assembly, revision: Revision)
    ensures var s := SymbolAddress(c, asm);
      s.result.Success? ==> Effect(SymbolReference, asm, s.asm, revision)
  {
    var e := Expect(c, IdentifierKind, AnyValue);
    if e.result.Success? {
      assert SymbolAddress(c, asm).asm == Reference(asm, e.result.value.name);
    }
  }

  lemma {:induction false} AddressLineEffect(c: Cursor, asm: Assembly, revision: Revision)
    ensures var s := AddressLine(c, asm, revision);
      s.result.Success? ==> Effect(AddressInstruction, asm, s.asm, revision)
    decreases 1, 0, 0
  {
    var e := Expect(c, LoadMarkerKind, AnyValue);
    if e.result.Success? {
      MatchEffect(LabelOrNumber, e.cursor, asm, revision);
    }
  }

  /** The C instruction appended: its destination, the encoding of its
      operation and its jump. */
  lemma ComputeLineEffect(c: Cursor, asm: Assembly, revision: Revision)
    ensures var s := ComputeLine(c, asm, revision);
      s.result.Success? ==> Effect(ComputeInstruction, asm, s.asm, revision)
  {
    ComputeOperationEffect(asm, Optional(Destination, c, asm, revision), revision);
  }

  lemma ComputeOperationEffect(asm: Assembly, d: Step<Option<Value>>, revision: Revision)
    requires d.result.Success? && d.result.value.Some? ==> d.result.value.value.FieldResult?
    requires d.asm == asm
    ensures var s := ComputeOperation(d, revision);
      s.result.Success? ==> Effect(ComputeInstruction, asm, s.asm, revision)
  {
    if d.result.Success? {
      var dest := if d.result.value.Some? then d.result.value.value.field else DestNone;
      ComputeFieldsEffect(asm, dest, Match(OperationChoice, d.cursor, d.asm, revision), revision);
    }
  }

  lemma ComputeFieldsEffect(asm: Assembly, dest: bv3, m: Step<(nat, Value)>, revision: Revision)
    requires m.result.Success? ==> m.result.value.1.ExpressionResult?
    requires m.asm == asm
    ensures var s := ComputeFields(dest, m, revision);
      s.result.Success? ==> Effect(ComputeInstruction, asm, s.asm, revision)
  {
    if m.result.Success? && Encode(m.result.value.1.desc, revision).Success? {
      var desc := m.result.value.1.desc;
      var flags := Encode(desc, revision).value;
      var j := Optional(JumpSuffix, m.cursor, m.asm, revision);
      ComputeJumpEffect(asm, dest, flags, j);
      if j.result.Success? {
        var jump := if j.result.value.Some? then j.result.value.value.field else JumpNone;
        assert ComputeFields(dest, m, revision).asm == Emit(asm, Compute(dest, flags, jump));
      }
    }
  }

  lemma ComputeJumpEffect(asm: Assembly, dest: bv3, flags: bv7, j: Step<Option<Value>>)
    requires j.result.Success? && j.result.value.Some? ==> j.result.value.value.FieldResult?
    requires j.asm == asm
    ensures var s := ComputeJump(dest, flags, j);
      s.result.Success? ==>
        j.result.Success?
        && s.asm == Emit(asm, Compute(dest, flags, if j.result.value.Some? then j.result.value.value.field else JumpNone))
  {
  }

  lemma {:induction false} OptionalEffect(rule: Rule, c: Cursor, asm: Assembly, revision: Revision)
    ensures var s := Optional(rule, c, asm, revision);
      s.result.Success? && s.result.value.Some? ==> Effect(rule, asm, s.asm, revision)
    decreases Height(rule), 1, 0
  {
    RunEffect(rule, LookAhead(c), asm, revision);
  }

  /** The effect of the alternative a successful `match` reports. */
  lemma {:induction false} TryAlternativesEffect(choice: Choice, i: nat, c: Cursor, asm: Assembly, revision: Revision)
    requires i <= |Alternatives(choice)|
    ensures var s := TryAlternatives(choice, i, c, asm, revision);
      s.result.Success? ==> Effect(Alternatives(choice)[s.result.value.0], asm, s.asm, revision)
    decreases ChoiceHeight(choice), 2, |Alternatives(choice)| - i, 1
  {
    var alts := Alternatives(choice);
    if i < |alts| {
      OptionalEffect(alts[i], c, asm, revision);
      OptionalDisciplined(alts[i], c, asm, revision);
      AttemptEffect(choice, i, Optional(alts[i], c, asm, revision), asm, revision);
    }
  }

  lemma {:induction false} AttemptEffect(choice: Choice, i: nat, o: Step<Option<Value>>, asm: Assembly, revision: Revision)
    requires i < |Alternatives(choice)|
    requires o.result.Success? && o.result.value.Some? ==>
      Produces(Alternatives(choice)[i], o.result.value.value) && Effect(Alternatives(choice)[i], asm, o.asm, revision)
    requires o.result == Success(None) ==> o.asm == asm
    ensures var s := Attempt(choice, i, o, revision);
      s.result.Success? ==> Effect(Alternatives(choice)[s.result.value.0], asm, s.asm, revision)
    decreases ChoiceHeight(choice), 2, |Alternatives(choice)| - i, 0
  {
    if o.result == Success(None) {
      TryAlternativesEffect(choice, i + 1, o.cursor, asm, revision);
    }
  }

  lemma {:induction false} MatchEffect(choice: Choice, c: Cursor, asm: Assembly, revision: Revision)
    ensures var s := Match(choice, c, asm, revision);
      s.result.Success? ==> Effect(Alternatives(choice)[s.result.value.0], asm, s.asm, revision)
    decreases ChoiceHeight(choice), 3, 0
  {
    TryAlternativesEffect(choice, 0, LookAhead(c), asm, revision);
  }

  // ---------------------------------------------------------------------------
  // The symbol table `parse` hands to `compile`.

  /** The reserved symbols: each key once, in the order given, each with a
      non-negative address. */
  predicate ReservedTable(reserved: map<string, int>, order: seq<string>)
  {
    && Distinct(order)
    && (forall name | name in reserved :: name in order)
    && (forall i | 0 <= i < |order| :: order[i] in reserved)
    && (forall name | name in reserved :: reserved[name] >= 0)
  }

  predicate Distinct(names: seq<string>)
  {
    forall i, j | 0 <= i < j < |names| :: names[i] != names[j]
  }

  /** The first k keys are the reserved symbols, with non-negative addresses;
      the i-th key after them was first referenced i-th and holds the
      placeholder -1-i; the next placeholder is the one after the last; every
      label points into the program or just past its end; every A instruction
      holds an address or an allocated placeholder. */
  predicate Placeholders(asm: Assembly, k: nat)
  {
    && k <= |asm.symbolOrder|
    && Distinct(asm.symbolOrder)
    && (forall name | name in asm.symbols :: name in asm.symbolOrder)
    && (forall i | 0 <= i < |asm.symbolOrder| :: asm.symbolOrder[i] in asm.symbols)
    && (forall i | 0 <= i < k :: asm.symbolOrder[i] in asm.symbols && asm.symbols[asm.symbolOrder[i]] >= 0)
    && (forall i | k <= i < |asm.symbolOrder| ::
          asm.symbolOrder[i] in asm.symbols && asm.symbols[asm.symbolOrder[i]] == k - 1 - i)
    && asm.nextPlaceholder == k - 1 - |asm.symbolOrder|
    && (forall name | name in asm.jumps :: 0 <= asm.jumps[name] <= |asm.instructions|)
    && (forall n | 0 <= n < |asm.instructions| && asm.instructions[n].Address? ::
          asm.instructions[n].rawValue > asm.nextPlaceholder)
  }

  /** A known name's pointer is a reserved address or an allocated placeholder. */
  lemma KnownPointer(asm: Assembly, k: nat, name: string)
    requires Placeholders(asm, k) && name in asm.symbols
    ensures asm.symbols[name] > asm.nextPlaceholder
  {
    var i :| 0 <= i < |asm.symbolOrder| && asm.symbolOrder[i] == name;
  }

  lemma ReferenceKeeps(asm: Assembly, k: nat, name: string)
    requires Placeholders(asm, k)
    ensures Placeholders(Reference(asm, name), k)
  {
    if name in asm.symbols {
      KnownPointer(asm, k, name);
    } else {
      FreshNameKeeps(asm, k, name);
    }
  }

  /** A name seen for the first time takes the next placeholder. */
  lemma FreshNameKeeps(asm: Assembly, k: nat, name: string)
    requires Placeholders(asm, k) && name !in asm.symbols
    ensures Placeholders(Reference(asm, name), k)
  {
    var after := Reference(asm, name);
    assert after.symbolOrder == asm.symbolOrder + [name];
    assert after.symbols == asm.symbols[name := asm.nextPlaceholder];
    assert name !in asm.symbolOrder;
    forall i | 0 <= i < |asm.symbolOrder|
      ensures after.symbolOrder[i] == asm.symbolOrder[i] != name
    {
    }
    assert after.instructions == asm.instructions + [Address(asm.nextPlaceholder)];
  }

  /** Every rule's effect keeps the table in shape. */
  lemma EffectKeeps(rule: Rule, before: Assembly, after: Assembly, k: nat, revision: Revision)
    requires Placeholders(before, k) && Effect(rule, before, after, revision)
    ensures Placeholders(after, k)
  {
    match rule
    case NumberLiteral =>
    case SymbolReference =>
      var name :| after == Reference(before, name);
      ReferenceKeeps(before, k, name);
    case AddressInstruction =>
      if Refers(before, after) {
        var name :| after == Reference(before, name);
        ReferenceKeeps(before, k, name);
      }
    case ComputeInstruction =>
    case LabelDeclaration =>
    case _ =>
  }

  /** Line by line, `parse` keeps the table in shape. */
  lemma {:induction false} LinesKeep(c: Cursor, asm: Assembly, k: nat, revision: Revision)
    requires Placeholders(asm, k)
    ensures var r := Lines(c, asm, revision); r.Success? ==> Placeholders(r.value, k)
    decreases |Remaining(c)|, 2
  {
    var s := SkipSeparators(c, asm, revision);
    if s.result.Success? {
      LineKeeps(c, s.cursor, asm, k, revision);
    }
  }

  lemma {:induction false} LineKeeps(c: Cursor, d: Cursor, asm: Assembly, k: nat, revision: Revision)
    requires Advanced(c, d) && Placeholders(asm, k)
    ensures var r := Line(c, d, asm, revision); r.Success? ==> Placeholders(r.value, k)
    decreases |Remaining(c)|, 1
  {
    var e := Optional(ExpectEnd, d, asm, revision);
    OptionalDisciplined(ExpectEnd, d, asm, revision);
    if e.result.Success? && e.result.value.None? {
      var m := Match(NextInstruction, e.cursor, asm, revision);
      MatchDisciplined(NextInstruction, e.cursor, asm, revision);
      AdvancedTrans(c, d, e.cursor);
      AdvancedTrans(c, e.cursor, m.cursor);
      if m.result.Success? {
        MatchEffect(NextInstruction, e.cursor, asm, revision);
        EffectKeeps(Alternatives(NextInstruction)[m.result.value.0], asm, m.asm, k, revision);
      }
      LineEndKeeps(c, m, k, revision);
    }
  }

  lemma {:induction false} LineEndKeeps(c: Cursor, m: Step<(nat, Value)>, k: nat, revision: Revision)
    requires Advanced(c, m.cursor) && Progress(c, m)
    requires m.result != Failure(Internal)
    requires m.result.Success? ==> Placeholders(m.asm, k)
    ensures var r := LineEnd(c, m, revision); r.Success? ==> Placeholders(r.value, k)
    decreases |Remaining(c)|, 0
  {
    if m.result.Success? {
      var t := Match(SeparatorOrEnd, m.cursor, m.asm, revision);
      MatchDisciplined(SeparatorOrEnd, m.cursor, m.asm, revision);
      if t.result.Success? && t.result.value.0 != 1 {
        AdvancedTrans(c, m.cursor, t.cursor);
        LinesKeep(t.cursor, t.asm, k, revision);
      }
    }
  }

  /** `parse` hands `compile` a table in shape, given reserved symbols in shape. */
  lemma ParseKeeps(tokens: seq<Token>, reserved: map<string, int>, order: seq<string>, revision: Revision)
    requires ReservedTable(reserved, order)
    ensures var r := ParseTokens(tokens, reserved, order, revision);
      r.Success? ==> Placeholders(r.value, |order|)
  {
    var start := Start(tokens, reserved, order);
    LinesKeep(start.0, start.1, |order|, revision);
  }
}
