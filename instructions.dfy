/** The data model of the assembler: operands, operation descriptions, the
    bit-field enumerations of a compute instruction and the two mnemonic tables. */
module Instructions {

  datatype Register = D | A | M

  /** The five operator tokens: `+ - ! & |`. */
  datatype Operation = Add | Subtract | Not | And | Or

  /** `Register | 1 | 0`: an operand is a register or one of the two boolean constants. */
  datatype Operand = Reg(register: Register) | Zero | One

  /** The three shapes a compute expression is parsed into. */
  datatype OperationDescription =
    | Constant(operand: Operand)
    | Unary(op: Operation, operand: Operand)
    | Binary(op: Operation, first: Operand, second: Operand)

  // OperationFlags: the 7-bit control field `a zx nx zy ny f no`.
  const FlagA:  bv7 := 1 << 6
  const FlagZx: bv7 := 1 << 5
  const FlagNx: bv7 := 1 << 4
  const FlagZy: bv7 := 1 << 3
  const FlagNy: bv7 := 1 << 2
  const FlagF:  bv7 := 1 << 1
  const FlagNo: bv7 := 1 << 0

  // DestinationFlags
  const DestA: bv3 := 0x4
  const DestD: bv3 := 0x2
  const DestM: bv3 := 0x1
  const DestNone: bv3 := 0x0

  // JumpFlags
  const JumpLessThan: bv3 := 0x4
  const JumpEqual: bv3 := 0x2
  const JumpGreaterThan: bv3 := 0x1
  const JumpNone: bv3 := 0x0

  /** An address instruction holds a literal or, until symbols are resolved, a
      negative placeholder; a compute instruction holds its three bit fields. */
  datatype Instruction =
    | Address(rawValue: int)
    | Compute(destination: bv3, operation: bv7, jump: bv3)

  const DestinationMnemonics: map<string, bv3> := map[
    "M"   := DestM,
    "D"   := DestD,
    "MD"  := DestM | DestD,
    "A"   := DestA,
    "AM"  := DestA | DestM,
    "AD"  := DestA | DestD,
    "AMD" := DestA | DestD | DestM
  ]

  const JumpMnemonics: map<string, bv3> := map[
    "JGT" := JumpGreaterThan,
    "JEQ" := JumpEqual,
    "JGE" := JumpEqual | JumpGreaterThan,
    "JLT" := JumpLessThan,
    "JNE" := JumpLessThan | JumpGreaterThan,
    "JLE" := JumpLessThan | JumpEqual,
    "JMP" := JumpLessThan | JumpEqual | JumpGreaterThan
  ]

  /** A table that maps its mnemonics one-to-one onto the non-zero 3-bit values. */
  ghost predicate MapsOntoNonZeroFields(table: map<string, bv3>)
  {
    && table.Values == {1, 2, 3, 4, 5, 6, 7}
    && forall m1, m2 :: m1 in table && m2 in table && table[m1] == table[m2] ==> m1 == m2
  }

  /** The destination table names seven mnemonics, injectively, onto 1..7, so the
      absent field value 0 (`None`) is never produced by a mnemonic. */
  lemma DestinationMnemonicsAreBijective()
    ensures DestinationMnemonics.Keys == {"M", "D", "MD", "A", "AM", "AD", "AMD"}
    ensures MapsOntoNonZeroFields(DestinationMnemonics)
  {
  }

  /** The same for the seven jump mnemonics. */
  lemma JumpMnemonicsAreBijective()
    ensures JumpMnemonics.Keys == {"JGT", "JEQ", "JGE", "JLT", "JNE", "JLE", "JMP"}
    ensures MapsOntoNonZeroFields(JumpMnemonics)
  {
  }
}
