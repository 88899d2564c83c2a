/** The compute-field encoder: `flagIf`, `loadOnly` and `flagsForOperation`, with
    the Hack ALU as the reference semantics that a control field must realise. */
module Encoder {
  import opened Base
  import opened Instructions

  function FlagIf(flag: bv7, condition: bool): bv7
  {
    if condition then flag else 0
  }

  /** The control bits that make the ALU output a register unchanged: zero and
      negate the other input bank, and select M through the `a` bit. */
  function LoadOnly(register: Register): bv7
  {
    FlagIf(FlagZy | FlagNy, register == D)
    | FlagIf(FlagZx | FlagNx, register != D)
    | FlagIf(FlagA, register == M)
  }

  /** `flagsForOperation` as the source writes it. Every rejection is `p.fatal`. */
  function FlagsForOperationAsWritten(desc: OperationDescription): (r: Result<bv7>)
    ensures r.Failure? ==> r.error == Fatal
  {
    match desc
    case Constant(operand) =>
      (match operand
       case Zero => Success(FlagZx | FlagZy | FlagF)
       case One => Success(FlagZx | FlagNx | FlagZy | FlagNy | FlagF | FlagNo)
       case Reg(register) => Success(LoadOnly(register)))
    case Unary(op, operand) =>
      if op == Subtract then
        (match operand
         case Zero => Failure(Fatal)
         case One => Success(FlagZx | FlagNx | FlagZy | FlagF)
         case Reg(register) => Success(LoadOnly(register) | FlagF | FlagNo))
      else if op == Not then
        if operand == Zero || operand == One then Failure(Fatal)
        else Success(LoadOnly(operand.register) | FlagNo)
      else
        Failure(Fatal)
    case Binary(op, first, second) =>
      if first == Zero || first == One then
        Failure(Fatal)
      else if second == Zero || second == One then
        if op == Add then
          Success(LoadOnly(first.register) | FlagNx | FlagNy | FlagF | FlagNo)
        else if op == Subtract then
          Success(LoadOnly(first.register) | FlagF)
        else
          Failure(Fatal)
      else if first == Reg(D) && second == Reg(D) then
        Failure(Fatal)
      else if (first == Reg(A) && second == Reg(M)) || (first == Reg(M) && second == Reg(A)) then
        Failure(Fatal)
      else
        var memory := FlagIf(FlagA, second == Reg(M) || first == Reg(M));
        match op
        case Add => Success(memory | FlagF)
        case Subtract =>
          Success(memory | FlagIf(FlagNx, first == Reg(D)) | FlagIf(FlagNy, second == Reg(D)) | FlagF | FlagNo)
        case And => Success(memory)
        case Or => Success(memory | FlagNx | FlagNy | FlagNo)
        case Not => Failure(Fatal)
  }

  /** Both registers come from the A/M bank, which feeds only the ALU's y input. */
  predicate BothFromAddressBank(first: Operand, second: Operand)
  {
    first.Reg? && second.Reg? && first.register != D && second.register != D
  }

  /** The encoder the rest of the model uses: the source's, with the two
      rejections its own diagnostics call for but its guards miss — two A/M-bank
      registers that are equal (`A+A`, `M-M`), and a constant 0 as second
      operand (`D+0`, `A-0`). */
  function FlagsForOperation(desc: OperationDescription): (r: Result<bv7>)
    ensures r.Failure? ==> r.error == Fatal
  {
    if desc.Binary? && desc.first.Reg? && (desc.second == Zero || BothFromAddressBank(desc.first, desc.second)) then
      Failure(Fatal)
    else
      FlagsForOperationAsWritten(desc)
  }

  /** Which descriptions the source's encoder accepts, and the fields that pick
      the operand bank and the operand to negate. */
  lemma AsWrittenAcceptance(desc: OperationDescription)
    ensures var r := FlagsForOperationAsWritten(desc);
      && (desc.Unary? ==>
            (r.Success? <==> (desc.op == Subtract && desc.operand != Zero) || (desc.op == Not && desc.operand.Reg?)))
      && (desc.Binary? && !desc.first.Reg? ==> r.Failure?)
      && (desc.Binary? && desc.first.Reg? && !desc.second.Reg? ==>
            (r.Success? <==> desc.op == Add || desc.op == Subtract))
      && (desc.Binary? && desc.first.Reg? && desc.second.Reg? ==>
            (r.Success? <==>
              && desc.op != Not
              && !(desc.first == desc.second == Reg(D))
              && {desc.first.register, desc.second.register} != {A, M}))
      && (r.Success? && desc.Binary? && desc.second.Reg? ==>
            (r.value & FlagA != 0 <==> desc.first == Reg(M) || desc.second == Reg(M)))
      && (r.Success? && desc.Binary? && desc.second.Reg? && desc.op == Subtract ==>
            && (r.value & FlagNx != 0 <==> desc.first == Reg(D))
            && (r.value & FlagNy != 0 <==> desc.second == Reg(D)))
  {
  }

  /** The corrected encoder accepts a subset of what the source's accepts, with
      the same encoding, and a binary operation exactly when its first operand is
      a register, its second is a register or the constant 1 (the latter only
      for + and -), and exactly one of the two registers is D. */
  lemma CorrectedAcceptance(desc: OperationDescription)
    ensures var r := FlagsForOperation(desc);
      && (r.Success? ==> FlagsForOperationAsWritten(desc) == r)
      && (desc.Binary? ==> (r.Success? <==>
            && desc.first.Reg?
            && desc.op != Not
            && (desc.second == One ==> desc.op == Add || desc.op == Subtract)
            && desc.second != Zero
            && (desc.second.Reg? ==> desc.first.register == D || desc.second.register == D)
            && !(desc.first == desc.second == Reg(D))))
  {
  }

  /** The source's encoder never looks at the value of a constant second
      operand: 0 and 1 get the same answer, for every operator and register. */
  lemma ConstantValueNotConsulted(op: Operation, first: Register)
    ensures FlagsForOperationAsWritten(Binary(op, Reg(first), Zero))
         == FlagsForOperationAsWritten(Binary(op, Reg(first), One))
  {
  }

  /** With two registers, the source's `&` and `|` accept the same pairs (every
      pair but D/D and A/M, same-bank pairs included); `&` is the `a` bit alone
      and `|` adds nx, ny and no to it. */
  lemma AsWrittenAndOrPattern(first: Register, second: Register)
    ensures var and := FlagsForOperationAsWritten(Binary(And, Reg(first), Reg(second)));
      var or := FlagsForOperationAsWritten(Binary(Or, Reg(first), Reg(second)));
      && (and.Success? <==> or.Success?)
      && (and.Success? <==> !(first == second == D) && {first, second} != {A, M})
      && (and.Success? ==>
            && and.value == FlagIf(FlagA, first == M || second == M)
            && or.value == and.value | FlagNx | FlagNy | FlagNo)
  {
  }

  // ---------------------------------------------------------------------------
  // Reference semantics: the Hack ALU and what an operation description means,
  // on 16-bit words held as integers in [0, 2^16).

  type Word = x: int | 0 <= x < 0x1_0000

  /** Bitwise `!` on a 16-bit word. */
  function Complement(x: Word): Word
  {
    0xFFFF - x
  }

  /** Addition modulo 2^16. */
  function Plus(x: Word, y: Word): Word
  {
    (x + y) % 0x1_0000
  }

  /** Subtraction modulo 2^16 (two's complement). */
  function Minus(x: Word, y: Word): Word
  {
    (x - y) % 0x1_0000
  }

  /** Bitwise `&` and `|` of the low `width` bits, least significant bit first. */
  function BitAnd(x: nat, y: nat, width: nat): nat
  {
    if width == 0 then 0
    else 2 * BitAnd(x / 2, y / 2, width - 1) + (if x % 2 == 1 && y % 2 == 1 then 1 else 0)
  }

  function BitOr(x: nat, y: nat, width: nat): nat
  {
    if width == 0 then 0
    else 2 * BitOr(x / 2, y / 2, width - 1) + (if x % 2 == 1 || y % 2 == 1 then 1 else 0)
  }

  lemma {:induction false} BitAndBounded(x: nat, y: nat, width: nat)
    ensures BitAnd(x, y, width) < Pow2(width)
  {
    if width > 0 { BitAndBounded(x / 2, y / 2, width - 1); }
  }

  /** And-ing with all ones keeps the word. */
  lemma {:induction false} BitAndOnes(x: nat, width: nat)
    requires x < Pow2(width)
    ensures BitAnd(x, Pow2(width) - 1, width) == x
    ensures BitAnd(Pow2(width) - 1, x, width) == x
  {
    if width > 0 {
      BitAndOnes(x / 2, width - 1);
      assert (Pow2(width) - 1) / 2 == Pow2(width - 1) - 1;
    }
  }

  /** Halving the complement of x is complementing half of x, one bit shorter. */
  lemma ComplementHalf(x: nat, width: nat)
    requires 0 < width && x < Pow2(width)
    ensures (Pow2(width) - 1 - x) / 2 == Pow2(width - 1) - 1 - x / 2
    ensures (Pow2(width) - 1 - x) % 2 == 1 - x % 2
  {
    var q, r := x / 2, x % 2;
    assert Pow2(width) - 1 - x == 2 * (Pow2(width - 1) - 1 - q) + (1 - r);
  }

  /** De Morgan: `x | y` is `!(!x & !y)`. */
  lemma {:induction false} BitOrByComplement(x: nat, y: nat, width: nat)
    requires x < Pow2(width) && y < Pow2(width)
    ensures BitOr(x, y, width) == Pow2(width) - 1 - BitAnd(Pow2(width) - 1 - x, Pow2(width) - 1 - y, width)
  {
    if width > 0 {
      ComplementHalf(x, width);
      ComplementHalf(y, width);
      BitOrByComplement(x / 2, y / 2, width - 1);
    }
  }

  lemma Pow2Of16()
    ensures Pow2(16) == 0x1_0000
  {
    assert Pow2(2) == 4;
    assert Pow2(4) == 16;
    assert Pow2(6) == 64;
    assert Pow2(8) == 256;
    assert Pow2(10) == 1024;
    assert Pow2(12) == 4096;
    assert Pow2(14) == 16384;
  }

  function And16(x: Word, y: Word): Word
  {
    Pow2Of16();
    BitAndBounded(x, y, 16);
    BitAnd(x, y, 16)
  }

  function Or16(x: Word, y: Word): Word
  {
    Pow2Of16();
    BitOrByComplement(x, y, 16);
    BitAndBounded(0xFFFF - x, 0xFFFF - y, 16);
    BitOr(x, y, 16)
  }

  /** The Hack ALU on inputs x and y under the six control bits zx nx zy ny f no
      (the `a` bit is not seen by the ALU; it chooses y, see Execute). */
  function Alu(x: Word, y: Word, control: bv7): Word
  {
    var x1 := if control & FlagZx != 0 then 0 else x;
    var x2 := if control & FlagNx != 0 then Complement(x1) else x1;
    var y1 := if control & FlagZy != 0 then 0 else y;
    var y2 := if control & FlagNy != 0 then Complement(y1) else y1;
    var out := if control & FlagF != 0 then Plus(x2, y2) else And16(x2, y2);
    if control & FlagNo != 0 then Complement(out) else out
  }

  /** What the CPU computes for a control field: x is D, and y is M when the `a`
      bit is set, A otherwise. */
  function Execute(control: bv7, d: Word, a: Word, m: Word): Word
  {
    Alu(d, if control & FlagA != 0 then m else a, control)
  }

  function OperandValue(operand: Operand, d: Word, a: Word, m: Word): Word
  {
    match operand
    case Zero => 0
    case One => 1
    case Reg(register) => (match register case D => d case A => a case M => m)
  }

  /** The 16-bit two's-complement value an operation description denotes. The
      shapes the encoder always rejects (a unary `+ & |`, a binary `!`) denote 0. */
  function Meaning(desc: OperationDescription, d: Word, a: Word, m: Word): Word
  {
    match desc
    case Constant(operand) => OperandValue(operand, d, a, m)
    case Unary(op, operand) =>
      (match op
       case Subtract => Minus(0, OperandValue(operand, d, a, m))
       case Not => Complement(OperandValue(operand, d, a, m))
       case _ => 0)
    case Binary(op, first, second) =>
      var x := OperandValue(first, d, a, m);
      var y := OperandValue(second, d, a, m);
      (match op
       case Add => Plus(x, y)
       case Subtract => Minus(x, y)
       case And => And16(x, y)
       case Or => Or16(x, y)
       case Not => 0)
  }

  lemma AndWithOnes(x: Word)
    ensures And16(x, 0xFFFF) == x && And16(0xFFFF, x) == x
  {
    Pow2Of16();
    BitAndOnes(x, 16);
  }

  lemma LoadOnlySelectsRegister(register: Register, d: Word, a: Word, m: Word)
    ensures Execute(LoadOnly(register), d, a, m) == OperandValue(Reg(register), d, a, m)
  {
    AndWithOnes(OperandValue(Reg(register), d, a, m));
  }

  lemma UnarySubtractIsSound(operand: Operand, d: Word, a: Word, m: Word)
    requires operand != Zero
    ensures Execute(FlagsForOperation(Unary(Subtract, operand)).value, d, a, m)
         == Minus(0, OperandValue(operand, d, a, m))
  {
    var c := FlagsForOperation(Unary(Subtract, operand)).value;
    match operand
    case One =>
      assert c == FlagZx | FlagNx | FlagZy | FlagF;
    case Reg(register) =>
      if register == D {
        assert c == FlagZy | FlagNy | FlagF | FlagNo;
      } else if register == A {
        assert c == FlagZx | FlagNx | FlagF | FlagNo;
      } else {
        assert c == FlagA | FlagZx | FlagNx | FlagF | FlagNo;
      }
  }

  lemma UnaryNotIsSound(register: Register, d: Word, a: Word, m: Word)
    ensures Execute(FlagsForOperation(Unary(Not, Reg(register))).value, d, a, m)
         == Complement(OperandValue(Reg(register), d, a, m))
  {
    AndWithOnes(OperandValue(Reg(register), d, a, m));
  }

  /** `x op y` where one of x and y is D and the other comes from the A/M bank. */
  lemma {:induction false} RegisterPairIsSound(op: Operation, first: Register, second: Register, d: Word, a: Word, m: Word)
    requires FlagsForOperation(Binary(op, Reg(first), Reg(second))).Success?
    ensures Execute(FlagsForOperation(Binary(op, Reg(first), Reg(second))).value, d, a, m)
         == Meaning(Binary(op, Reg(first), Reg(second)), d, a, m)
  {
    CorrectedAcceptance(Binary(op, Reg(first), Reg(second)));
    assert first == D || second == D;
    match op
    case Add => PairAddIsSound(first, second, d, a, m);
    case Subtract => PairSubtractIsSound(first, second, d, a, m);
    case And => PairAndIsSound(first, second, d, a, m);
    case Or => PairOrIsSound(first, second, d, a, m);
  }

  lemma PairAddIsSound(first: Register, second: Register, d: Word, a: Word, m: Word)
    requires (first == D) != (second == D)
    ensures Execute(FlagsForOperation(Binary(Add, Reg(first), Reg(second))).value, d, a, m)
         == Plus(OperandValue(Reg(first), d, a, m), OperandValue(Reg(second), d, a, m))
  {
  }

  lemma PairSubtractIsSound(first: Register, second: Register, d: Word, a: Word, m: Word)
    requires (first == D) != (second == D)
    ensures Execute(FlagsForOperation(Binary(Subtract, Reg(first), Reg(second))).value, d, a, m)
         == Minus(OperandValue(Reg(first), d, a, m), OperandValue(Reg(second), d, a, m))
  {
    var memory := if first == M || second == M then FlagA else 0;
    var c := FlagsForOperation(Binary(Subtract, Reg(first), Reg(second))).value;
    if first == D {
      assert c == memory | FlagNx | FlagF | FlagNo;
    } else {
      assert c == memory | FlagNy | FlagF | FlagNo;
    }
  }

  lemma PairAndIsSound(first: Register, second: Register, d: Word, a: Word, m: Word)
    requires (first == D) != (second == D)
    ensures Execute(FlagsForOperation(Binary(And, Reg(first), Reg(second))).value, d, a, m)
         == And16(OperandValue(Reg(first), d, a, m), OperandValue(Reg(second), d, a, m))
  {
    var y := if first == M || second == M then m else a;
    assert Execute(FlagsForOperation(Binary(And, Reg(first), Reg(second))).value, d, a, m) == And16(d, y);
    BitAndCommutes(d, y, 16);
  }

  lemma PairOrIsSound(first: Register, second: Register, d: Word, a: Word, m: Word)
    requires (first == D) != (second == D)
    ensures Execute(FlagsForOperation(Binary(Or, Reg(first), Reg(second))).value, d, a, m)
         == Or16(OperandValue(Reg(first), d, a, m), OperandValue(Reg(second), d, a, m))
  {
    var y := if first == M || second == M then m else a;
    var c := FlagsForOperation(Binary(Or, Reg(first), Reg(second))).value;
    assert c & FlagA == (if first == M || second == M then FlagA else 0);
    assert c & !FlagA == FlagNx | FlagNy | FlagNo;
    Pow2Of16();
    BitOrByComplement(d, y, 16);
    assert Execute(c, d, a, m) == Or16(d, y);
    BitOrCommutes(d, y, 16);
  }

  lemma {:induction false} BitAndCommutes(x: nat, y: nat, width: nat)
    ensures BitAnd(x, y, width) == BitAnd(y, x, width)
  {
    if width > 0 { BitAndCommutes(x / 2, y / 2, width - 1); }
  }

  lemma {:induction false} BitOrCommutes(x: nat, y: nat, width: nat)
    ensures BitOr(x, y, width) == BitOr(y, x, width)
  {
    if width > 0 { BitOrCommutes(x / 2, y / 2, width - 1); }
  }

  /** Soundness of the encoder: whatever it accepts, the ALU computes exactly the
      value the expression denotes, for every content of D, A and M. */
  lemma {:induction false} EncodingIsSound(desc: OperationDescription, d: Word, a: Word, m: Word)
    requires FlagsForOperation(desc).Success?
    ensures Execute(FlagsForOperation(desc).value, d, a, m) == Meaning(desc, d, a, m)
  {
    match desc
    case Constant(operand) =>
      ConstantIsSound(operand, d, a, m);
    case Unary(op, operand) =>
      if op == Subtract {
        UnarySubtractIsSound(operand, d, a, m);
      } else {
        UnaryNotIsSound(operand.register, d, a, m);
      }
    case Binary(op, first, second) =>
      if second.Reg? {
        RegisterPairIsSound(op, first.register, second.register, d, a, m);
      } else {
        ConstantOperandIsSound(op, first.register, d, a, m);
      }
  }

  lemma ConstantIsSound(operand: Operand, d: Word, a: Word, m: Word)
    ensures Execute(FlagsForOperation(Constant(operand)).value, d, a, m) == OperandValue(operand, d, a, m)
  {
    if operand.Reg? {
      LoadOnlySelectsRegister(operand.register, d, a, m);
    }
  }

  /** `r+1` and `r-1`, the only binary forms with a constant the corrected
      encoder accepts. */
  lemma ConstantOperandIsSound(op: Operation, first: Register, d: Word, a: Word, m: Word)
    requires FlagsForOperation(Binary(op, Reg(first), One)).Success?
    ensures Execute(FlagsForOperation(Binary(op, Reg(first), One)).value, d, a, m)
         == Meaning(Binary(op, Reg(first), One), d, a, m)
  {
    if op == Add {
      IncrementIsSound(first, d, a, m);
    } else {
      DecrementIsSound(first, d, a, m);
    }
  }

  lemma IncrementIsSound(first: Register, d: Word, a: Word, m: Word)
    ensures Execute(FlagsForOperation(Binary(Add, Reg(first), One)).value, d, a, m)
         == Plus(OperandValue(Reg(first), d, a, m), 1)
  {
  }

  lemma DecrementIsSound(first: Register, d: Word, a: Word, m: Word)
    ensures Execute(FlagsForOperation(Binary(Subtract, Reg(first), One)).value, d, a, m)
         == Minus(OperandValue(Reg(first), d, a, m), 1)
  {
  }

  // ---------------------------------------------------------------------------
  // The comp table of the Hack machine language (chapter 4 of "The Elements of
  // Computing Systems"): the 28 computations and their `a c1..c6` codes.

  const HackComputations: seq<(OperationDescription, bv7)> := [
    (Constant(Zero), 0x2A), (Constant(One), 0x3F), (Unary(Subtract, One), 0x3A),
    (Constant(Reg(D)), 0x0C), (Constant(Reg(A)), 0x30), (Constant(Reg(M)), 0x70),
    (Unary(Not, Reg(D)), 0x0D), (Unary(Not, Reg(A)), 0x31), (Unary(Not, Reg(M)), 0x71),
    (Unary(Subtract, Reg(D)), 0x0F), (Unary(Subtract, Reg(A)), 0x33), (Unary(Subtract, Reg(M)), 0x73),
    (Binary(Add, Reg(D), One), 0x1F), (Binary(Add, Reg(A), One), 0x37), (Binary(Add, Reg(M), One), 0x77),
    (Binary(Subtract, Reg(D), One), 0x0E), (Binary(Subtract, Reg(A), One), 0x32),
    (Binary(Subtract, Reg(M), One), 0x72),
    (Binary(Add, Reg(D), Reg(A)), 0x02), (Binary(Add, Reg(D), Reg(M)), 0x42),
    (Binary(Subtract, Reg(D), Reg(A)), 0x13), (Binary(Subtract, Reg(D), Reg(M)), 0x53),
    (Binary(Subtract, Reg(A), Reg(D)), 0x07), (Binary(Subtract, Reg(M), Reg(D)), 0x47),
    (Binary(And, Reg(D), Reg(A)), 0x00), (Binary(And, Reg(D), Reg(M)), 0x40),
    (Binary(Or, Reg(D), Reg(A)), 0x15), (Binary(Or, Reg(D), Reg(M)), 0x55)
  ]

  /** The encoder produces exactly the book's code for each of the 28 computations. */
  lemma EncodesHackComputations()
    ensures forall i :: 0 <= i < |HackComputations| ==>
      FlagsForOperation(HackComputations[i].0) == Success(HackComputations[i].1)
  {
  }

  // ---------------------------------------------------------------------------
  // Where the source's encoder and the ALU disagree.

  /** `A+A` passes every guard of the source (only D/D and the A/M pair are
      refused) and is encoded as `D+A`: with D = 0 and A = 1 the CPU stores 1, not 2. */
  lemma SameBankOperandsMiscompile()
    ensures FlagsForOperationAsWritten(Binary(Add, Reg(A), Reg(A))) == Success(FlagF)
    ensures Execute(FlagF, 0, 1, 0) == 1
    ensures Meaning(Binary(Add, Reg(A), Reg(A)), 0, 1, 0) == 2
    ensures FlagsForOperation(Binary(Add, Reg(A), Reg(A))) == Failure(Fatal)
  {
  }

  /** The value of a constant second operand is never consulted: `D+0` gets the
      code of `D+1`, so with D = 5 the CPU computes 6 where the text says 5. */
  lemma ConstantZeroOperandMiscompiles()
    ensures FlagsForOperationAsWritten(Binary(Add, Reg(D), Zero))
         == FlagsForOperationAsWritten(Binary(Add, Reg(D), One))
         == Success(0x1F)
    ensures Execute(0x1F, 5, 0, 0) == 6
    ensures Meaning(Binary(Add, Reg(D), Zero), 5, 0, 0) == 5
    ensures FlagsForOperation(Binary(Add, Reg(D), Zero)) == Failure(Fatal)
  {
    var c: bv7 := 0x1F;
    assert c & FlagZx == 0 && c & FlagNx != 0 && c & FlagZy != 0;
    assert c & FlagNy != 0 && c & FlagF != 0 && c & FlagNo != 0 && c & FlagA == 0;
    assert Alu(5, 0, c) == Complement(Plus(Complement(5), Complement(0)));
  }
}
