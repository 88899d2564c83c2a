/** `binaryTranslate`: the resolved program as text, one line per
    instruction, each line sixteen '0'/'1' characters (most significant bit
    first) and a newline. */
module BinaryTranslate {
  import opened Base
  import opened Instructions

  /** The compute-instruction layout: the three leading ones and the offsets
      of the jump, destination and operation fields. */
  const Prefix: nat := 0xE000
  const JumpOffset: nat := 0
  const DestOffset: nat := 3
  const OperationOffset: nat := 6

  /** `prefix | operation << 6 | destination << 3 | jump << 0`. The fields are
      3, 3 and 7 bits wide and the prefix starts at bit 13, so no two of them
      share a bit and the `|` of the shifted fields is their sum. */
  function ComputeWord(dest: bv3, op: bv7, jump: bv3): (w: nat)
    ensures Prefix <= w < 0x1_0000
  {
    Pow2Offsets();
    Prefix + (op as nat) * Pow2(OperationOffset) + (dest as nat) * Pow2(DestOffset) + (jump as nat) * Pow2(JumpOffset)
  }

  lemma Pow2Offsets()
    ensures Pow2(OperationOffset) == 64 && Pow2(DestOffset) == 8 && Pow2(JumpOffset) == 1
  {
  }

  /** The number an instruction is written as: an address instruction's value,
      or the compute word. */
  function Word(cmd: Instruction): int
  {
    match cmd
    case Address(value) => value
    case Compute(dest, op, jump) => ComputeWord(dest, op, jump)
  }

  /** The low `width` bits of `value`, most significant first. A negative value
      is read in two's complement, as JavaScript's `&` reads it. */
  function Binary(value: int, width: nat): (s: string)
    ensures |s| == width
    decreases width
  {
    if width == 0 then [] else Binary(value / 2, width - 1) + [if value % 2 == 1 then '1' else '0']
  }

  /** Only the two digit characters appear. */
  lemma {:induction false} BinaryDigits(value: int, width: nat)
    ensures forall i | 0 <= i < width :: Binary(value, width)[i] in "01"
    decreases width
  {
    if width > 0 {
      BinaryDigits(value / 2, width - 1);
    }
  }

  /** A string of '0' and '1' read as a binary numeral. */
  function BinaryValue(s: string): nat
  {
    if s == [] then 0 else 2 * BinaryValue(s[..|s| - 1]) + (if s[|s| - 1] == '1' then 1 else 0)
  }

  /** `writeUint16BinaryString`: appends the sixteen bits of `value`. The mask
      runs from bit 15 down to bit 0 (`mask >>= 1` on a positive mask is halving)
      and `mask & value` is non-zero exactly when that bit of `value` is set. */
  method WriteUint16BinaryString(buf: string, value: int) returns (out: string)
    ensures out == buf + Binary(value, 16)
  {
    out := buf;
    var mask := 0x8000;
    ghost var k: nat := 16;
    Pow2Sixteen();
    while mask > 0
      invariant k <= 16
      invariant mask == if k == 0 then 0 else Pow2(k - 1)
      invariant out == buf + Binary(value / Pow2(k), 16 - k)
      decreases mask
    {
      NextDigit(buf, value, mask, k);
      out := out + [if (value / mask) % 2 != 0 then '1' else '0'];
      mask := mask / 2;
      k := k - 1;
    }
    assert k == 0 && Pow2(k) == 1;
    assert value / Pow2(k) == value;
  }

  /** The digit the mask selects comes right after the digits above it, and
      halving the mask moves it one bit down. */
  lemma NextDigit(buf: string, value: int, mask: int, k: nat)
    requires 0 < k <= 16 && mask == Pow2(k - 1)
    ensures buf + Binary(value / Pow2(k), 16 - k) + [if (value / mask) % 2 != 0 then '1' else '0']
      == buf + Binary(value / Pow2(k - 1), 17 - k)
    ensures mask / 2 == if k == 1 then 0 else Pow2(k - 2)
  {
    HalveTwice(value, mask);
  }

  lemma Pow2Sixteen()
    ensures Pow2(15) == 0x8000 && Pow2(16) == 0x1_0000
  {
    assert Pow2(4) == 16;
    assert Pow2(8) == 256;
    assert Pow2(12) == 4096;
  }

  /** Halving a quotient is dividing by twice the divisor. */
  lemma HalveTwice(value: int, d: int)
    requires d > 0
    ensures value / d / 2 == value / (2 * d)
  {
    var q := value / d;
    var r := value % d;
    var q2 := q / 2;
    var r2 := q % 2;
    assert value == (2 * d) * q2 + (d * r2 + r);
    ModUnique(value, 2 * d, q2, d * r2 + r);
  }

  /** Euclidean division by a positive divisor has one quotient and remainder. */
  lemma ModUnique(value: int, d: int, q: int, r: int)
    requires d > 0 && value == d * q + r && 0 <= r < d
    ensures value / d == q && value % d == r
  {
    var q' := value / d;
    var r' := value % d;
    assert value == d * q' + r';
    if q' < q {
      assert d * q - d * q' - d == d * (q - q' - 1);
      MulNonNegative(d, q - q' - 1);
    } else if q < q' {
      assert d * q' - d * q - d == d * (q' - q - 1);
      MulNonNegative(d, q' - q - 1);
    }
  }

  lemma MulNonNegative(a: int, b: int)
    requires a >= 0 && b >= 0
    ensures a * b >= 0
  {
  }

  /** The bits read back give the value modulo 2^width. */
  lemma {:induction false} BinaryRoundTrip(value: int, width: nat)
    ensures BinaryValue(Binary(value, width)) == value % Pow2(width)
    decreases width
  {
    if width > 0 {
      var s := Binary(value, width);
      assert s[..|s| - 1] == Binary(value / 2, width - 1);
      BinaryRoundTrip(value / 2, width - 1);
      LowDigit(value, Pow2(width - 1));
    }
  }

  /** The remainder modulo 2p from the remainder of the half modulo p and the
      lowest digit. */
  lemma LowDigit(value: int, p: int)
    requires p >= 1
    ensures 2 * ((value / 2) % p) + value % 2 == value % (2 * p)
  {
    var low := (value / 2) % p;
    var high := (value / 2) / p;
    assert value == 2 * (value / 2) + value % 2;
    assert value / 2 == p * high + low;
    assert value == (2 * p) * high + (2 * low + value % 2);
    ModUnique(value, 2 * p, high, 2 * low + value % 2);
  }

  /** The text of a program: every word in sixteen bits and a newline. */
  function Listing(program: seq<Instruction>): (s: string)
  {
    if program == [] then []
    else Listing(program[..|program| - 1]) + Binary(Word(program[|program| - 1]), 16) + "\n"
  }

  /** `binaryTranslate`: the instructions in order, an address instruction as
      its value and a compute instruction as its compute word. */
  method Translate(program: seq<Instruction>) returns (out: string)
    ensures out == Listing(program)
  {
    out := [];
    for i := 0 to |program|
      invariant out == Listing(program[..i])
    {
      assert program[..i + 1][..i] == program[..i];
      var cmd := program[i];
      if cmd.Address? {
        out := WriteUint16BinaryString(out, cmd.rawValue);
      } else {
        out := WriteUint16BinaryString(out, ComputeWord(cmd.destination, cmd.operation, cmd.jump));
      }
      out := out + "\n";
    }
    assert program[..|program|] == program;
  }

  /** Every instruction is one line of seventeen characters. */
  lemma {:induction false} ListingLength(program: seq<Instruction>)
    ensures |Listing(program)| == 17 * |program|
  {
    if program != [] {
      ListingLength(program[..|program| - 1]);
    }
  }

  /** Reading a listing back: each line's sixteen digits as a number. */
  function ReadListing(s: string): seq<int>
  {
    if |s| < 17 then [] else ReadListing(s[..|s| - 17]) + [BinaryValue(s[|s| - 17..|s| - 1])]
  }

  /** The listing holds each instruction's word modulo 2^16, in order. */
  lemma {:induction false} ListingReadsBack(program: seq<Instruction>)
    ensures ReadListing(Listing(program)) == Words(program)
  {
    if program != [] {
      var front := program[..|program| - 1];
      var word := Word(program[|program| - 1]);
      ReadLine(Listing(front), Binary(word, 16));
      ListingReadsBack(front);
      BinaryRoundTrip(word, 16);
      Pow2Sixteen();
    }
  }

  /** Each instruction's word cut to sixteen bits, in order. */
  function Words(program: seq<Instruction>): (words: seq<int>)
    ensures |words| == |program|
  {
    if program == [] then []
    else Words(program[..|program| - 1]) + [Word(program[|program| - 1]) % 0x1_0000]
  }

  lemma {:induction false} WordsAt(program: seq<Instruction>, i: nat)
    requires i < |program|
    ensures Words(program)[i] == Word(program[i]) % 0x1_0000
  {
    if i < |program| - 1 {
      WordsAt(program[..|program| - 1], i);
    }
  }

  /** Reading a listing with one more line reads one more number. */
  lemma ReadLine(front: string, line: string)
    requires |line| == 16
    ensures ReadListing(front + line + "\n") == ReadListing(front) + [BinaryValue(line)]
  {
    var s := front + line + "\n";
    assert s[..|s| - 17] == front;
    assert s[|s| - 17..|s| - 1] == line;
  }

  /** How a Hack machine reads a word: bit 15 set is a compute instruction
      with its fields at the offsets above, otherwise an address. */
  function Decode(w: nat): Instruction
  {
    if w / 0x8000 % 2 == 1 then
      Compute(((w / 8) % 8) as bv3, ((w / 64) % 128) as bv7, (w % 8) as bv3)
    else
      Address(w)
  }

  /** A compute word starts with three ones and decodes to its own fields. */
  lemma ComputeWordDecodes(dest: bv3, op: bv7, jump: bv3)
    ensures var w := ComputeWord(dest, op, jump);
      w / 0x2000 == 7 && Decode(w) == Compute(dest, op, jump)
  {
    Pow2Offsets();
    FieldsDecode(ComputeWord(dest, op, jump), op as int, dest as int, jump as int);
  }

  /** The fields of a word laid out as `111 operation destination jump`. */
  lemma FieldsDecode(w: int, op: int, dest: int, jump: int)
    requires 0 <= op < 128 && 0 <= dest < 8 && 0 <= jump < 8 && w == 0xE000 + op * 64 + dest * 8 + jump
    ensures w / 0x2000 == 7 && w / 0x8000 % 2 == 1
    ensures (w / 64) % 128 == op && (w / 8) % 8 == dest && w % 8 == jump
  {
    ModUnique(w, 8, 0x1C00 + op * 8 + dest, jump);
    ModUnique(w / 8, 8, 0x380 + op, dest);
    ModUnique(w, 64, 0x380 + op, dest * 8 + jump);
    ModUnique(w / 64, 128, 7, op);
    ModUnique(w, 0x8000, 1, w - 0x8000);
    ModUnique(w, 0x2000, 7, w - 0xE000);
  }

  /** An instruction's word, cut to sixteen bits, decodes to the instruction
      when it is a compute instruction or an address below 2^15. */
  lemma WordDecodes(cmd: Instruction)
    requires cmd.Address? ==> 0 <= cmd.rawValue < 0x8000
    ensures Word(cmd) % 0x1_0000 >= 0 && Decode(Word(cmd) % 0x1_0000) == cmd
  {
    match cmd
    case Address(value) =>
      assert value % 0x1_0000 == value;
    case Compute(dest, op, jump) =>
      ComputeWordDecodes(dest, op, jump);
  }

  /** The listing determines the program when every address fits in fifteen
      bits: decoding each line gives back each instruction. */
  lemma ListingDecodes(program: seq<Instruction>)
    requires forall i | 0 <= i < |program| && program[i].Address? :: 0 <= program[i].rawValue < 0x8000
    ensures var words := ReadListing(Listing(program));
      |words| == |program| && forall i | 0 <= i < |program| :: words[i] >= 0 && Decode(words[i]) == program[i]
  {
    ListingReadsBack(program);
    forall i | 0 <= i < |program|
      ensures Words(program)[i] >= 0 && Decode(Words(program)[i]) == program[i]
    {
      WordsAt(program, i);
      WordDecodes(program[i]);
    }
  }
}
