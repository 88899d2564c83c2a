/** `compile`: resolve the names the parser left as negative placeholders.
    A name with a label gets the label's instruction index; any other name
    is a variable and gets the next free address, counting up from the
    first unreserved one in the order the names entered the symbol table.
    Then every address instruction holding a placeholder is patched in
    place. */
module Compile {
  import opened Base
  import opened Instructions
  import opened TokenCursor
  import opened Grammar
  import opened Driver
  import opened Effects
  import Parsing

  // ---------------------------------------------------------------------------
  // The first loop: placeholder -> resolved address.

  /** The reverse lookup and the next unassigned address once the first loop
      has visited the keys in `order`: a non-negative pointer is reserved and
      skipped, a name with a jump entry gets that entry, any other name the
      next unassigned address. */
  function Allocation(order: seq<string>, symbols: map<string, int>, jumps: map<string, int>, first: int): (a: (map<int, int>, int))
    requires forall i | 0 <= i < |order| :: order[i] in symbols
  {
    if order == [] then (map[], first)
    else
      var before := Allocation(order[..|order| - 1], symbols, jumps, first);
      var name := order[|order| - 1];
      var pointer := symbols[name];
      if pointer >= 0 then before
      else if name !in jumps then (before.0[pointer := before.1], before.1 + 1)
      else (before.0[pointer := jumps[name]], before.1)
  }

  method BuildReverseLookup(symbols: map<string, int>, order: seq<string>, jumps: map<string, int>, first: int)
    returns (lookup: map<int, int>, next: int)
    requires forall i | 0 <= i < |order| :: order[i] in symbols
    ensures (lookup, next) == Allocation(order, symbols, jumps, first)
  {
    lookup := map[];
    next := first;
    for i := 0 to |order|
      invariant (lookup, next) == Allocation(order[..i], symbols, jumps, first)
    {
      assert order[..i + 1][..i] == order[..i];
      var name := order[i];
      var pointer := symbols[name];
      if pointer >= 0 {
        continue;
      }
      if name !in jumps {
        lookup := lookup[pointer := next];
        next := next + 1;
      } else {
        lookup := lookup[pointer := jumps[name]];
      }
    }
    assert order[..|order|] == order;
  }

  /** How many of the keys order[k..i] have no name: the variables among them. */
  function Variables(order: seq<string>, jumps: map<string, int>, k: nat, i: nat): nat
    requires i <= |order|
  {
    if i <= k then 0
    else Variables(order, jumps, k, i - 1) + (if order[i - 1] in jumps then 0 else 1)
  }

  /** The table as `parse` leaves it: the first k keys reserved, the i-th key
      after them holding the placeholder k-1-i. */
  predicate Numbered(order: seq<string>, symbols: map<string, int>, k: nat)
  {
    forall i | 0 <= i < |order| ::
      order[i] in symbols && (if i < k then symbols[order[i]] >= 0 else symbols[order[i]] == k - 1 - i)
  }

  /** After n keys, the lookup knows exactly the placeholders of the names
      among them; a labelled name's placeholder leads to its name, the i-th
      key's placeholder otherwise to the first unreserved address plus the
      number of variables before it; the next address is past all of them. */
  lemma {:induction false} AllocationResolves(order: seq<string>, symbols: map<string, int>, jumps: map<string, int>, first: int, k: nat, n: nat)
    requires Numbered(order, symbols, k) && n <= |order|
    ensures var a := Allocation(order[..n], symbols, jumps, first);
      && (forall p :: p in a.0 <==> k - n <= p < 0)
      && (forall i | k <= i < n ::
            a.0[k - 1 - i] == if order[i] in jumps then jumps[order[i]] else first + Variables(order, jumps, k, i))
      && a.1 == first + Variables(order, jumps, k, n)
  {
    if n > 0 {
      AllocationResolves(order, symbols, jumps, first, k, n - 1);
      assert order[..n][..n - 1] == order[..n - 1];
      assert order[..n][n - 1] == order[n - 1];
    }
  }

  /** Variables get strictly increasing addresses in key order. */
  lemma {:induction false} VariablesIncrease(order: seq<string>, jumps: map<string, int>, k: nat, i: nat, j: nat)
    requires k <= i < j <= |order| && order[i] !in jumps
    ensures Variables(order, jumps, k, i) < Variables(order, jumps, k, j)
    decreases j
  {
    if j > i + 1 {
      VariablesIncrease(order, jumps, k, i, j - 1);
    }
  }

  /** Two different variables never share an address, and each lies between
      the first unreserved address and the next unassigned one. */
  lemma VariablesApart(order: seq<string>, symbols: map<string, int>, jumps: map<string, int>, first: int, k: nat, i: nat, j: nat)
    requires Numbered(order, symbols, k)
    requires k <= i < j < |order| && order[i] !in jumps && order[j] !in jumps
    ensures var a := Allocation(order, symbols, jumps, first);
      && k - 1 - i in a.0 && k - 1 - j in a.0
      && first <= a.0[k - 1 - i] < a.0[k - 1 - j] < a.1
  {
    AllocationResolves(order, symbols, jumps, first, k, |order|);
    assert order[..|order|] == order;
    VariablesIncrease(order, jumps, k, i, j);
    VariablesIncrease(order, jumps, k, j, |order|);
  }

  // ---------------------------------------------------------------------------
  // The second loop: the in-place patch.

  /** An instruction the patch can handle: not an address placeholder, or one
      the lookup knows. */
  predicate Resolvable(cmd: Instruction, lookup: map<int, int>)
  {
    cmd.Address? && cmd.rawValue < 0 ==> cmd.rawValue in lookup
  }

  /** `cmd.rawValue = dest` for an address instruction holding a placeholder;
      every other instruction is left as it is. */
  function Resolve(cmd: Instruction, lookup: map<int, int>): Instruction
    requires Resolvable(cmd, lookup)
  {
    if cmd.Address? && cmd.rawValue < 0 then Address(lookup[cmd.rawValue]) else cmd
  }

  /** Patches the instructions in order. At the first placeholder the lookup
      does not know it stops with an internal error, the instructions before
      it patched and the rest untouched. */
  method Patch(code: array<Instruction>, lookup: map<int, int>) returns (r: Result<()>)
    modifies code
    ensures r.Failure? ==> r.error == Internal
    ensures r.Success? <==> forall i | 0 <= i < code.Length :: Resolvable(old(code[i]), lookup)
    ensures r.Success? ==> forall i | 0 <= i < code.Length :: code[i] == Resolve(old(code[i]), lookup)
    ensures r.Failure? ==> exists n | 0 <= n < code.Length :: PatchedUpTo(code[..], old(code[..]), lookup, n)
  {
    for i := 0 to code.Length
      invariant forall j | 0 <= j < i :: Resolvable(old(code[j]), lookup) && code[j] == Resolve(old(code[j]), lookup)
      invariant forall j | i <= j < code.Length :: code[j] == old(code[j])
    {
      var cmd := code[i];
      if cmd.Address? && cmd.rawValue < 0 {
        if cmd.rawValue !in lookup {
          assert PatchedUpTo(code[..], old(code[..]), lookup, i);
          return Failure(Internal);
        }
        code[i] := Address(lookup[cmd.rawValue]);
      }
    }
    return Success(());
  }

  /** The state a failed patch leaves: instruction n is a placeholder the
      lookup does not know, those before it are patched, the rest untouched. */
  ghost predicate PatchedUpTo(now: seq<Instruction>, before: seq<Instruction>, lookup: map<int, int>, n: nat)
  {
    && |now| == |before| && n < |before|
    && !Resolvable(before[n], lookup)
    && (forall j | 0 <= j < n :: Resolvable(before[j], lookup) && now[j] == Resolve(before[j], lookup))
    && (forall j | n <= j < |before| :: now[j] == before[j])
  }

  // ---------------------------------------------------------------------------
  // compile

  /** The program `compile` returns for the lexer's tokens: the parser's
      error, an internal error when a placeholder has no address, or the
      instructions with every placeholder replaced. `reserved` and `order` are
      the reserved symbols and `first` the first unreserved address. */
  function Compiled(tokens: seq<Token>, reserved: map<string, int>, order: seq<string>, first: int, revision: Revision): Result<seq<Instruction>>
    requires ReservedTable(reserved, order)
  {
    var parsed := ParseTokens(tokens, reserved, order, revision);
    if parsed.Failure? then Failure(parsed.error)
    else
      var asm := parsed.value;
      ParseKeeps(tokens, reserved, order, revision);
      var lookup := Allocation(asm.symbolOrder, asm.symbols, asm.jumps, first).0;
      if forall i | 0 <= i < |asm.instructions| :: Resolvable(asm.instructions[i], lookup) then
        Success(seq(|asm.instructions|, i requires 0 <= i < |asm.instructions| => Resolve(asm.instructions[i], lookup)))
      else
        Failure(Internal)
  }

  method Compile(tokens: seq<Token>, reserved: map<string, int>, order: seq<string>, first: int, revision: Revision)
    returns (r: Result<seq<Instruction>>)
    requires ReservedTable(reserved, order)
    ensures r == Compiled(tokens, reserved, order, first, revision)
  {
    var parsed := Parsing.Parse(tokens, reserved, order, revision);
    if parsed.Failure? {
      return Failure(parsed.error);
    }
    var asm := parsed.value;
    ParseKeeps(tokens, reserved, order, revision);
    var lookup, next := BuildReverseLookup(asm.symbols, asm.symbolOrder, asm.jumps, first);
    var code := new Instruction[|asm.instructions|](i requires 0 <= i < |asm.instructions| => asm.instructions[i]);
    assert code[..] == asm.instructions;
    var patched := Patch(code, lookup);
    if patched.Failure? {
      return Failure(patched.error);
    }
    assert code[..] == seq(|asm.instructions|, i requires 0 <= i < |asm.instructions| => Resolve(asm.instructions[i], lookup));
    return Success(code[..]);
  }

  // ---------------------------------------------------------------------------
  // What `compile` promises.

  /** Every placeholder the parser hands over has an address: `compile` fails
      only with the parser's own error, never with the internal one. */
  lemma CompileNeverBreaks(tokens: seq<Token>, reserved: map<string, int>, order: seq<string>, first: int, revision: Revision)
    requires ReservedTable(reserved, order)
    ensures var r := Compiled(tokens, reserved, order, first, revision);
      var parsed := ParseTokens(tokens, reserved, order, revision);
      && (r.Failure? <==> parsed.Failure?)
      && (r.Failure? ==> r.error == parsed.error && r.error != Internal)
  {
    var parsed := ParseTokens(tokens, reserved, order, revision);
    if parsed.Success? {
      var asm := parsed.value;
      ParseKeeps(tokens, reserved, order, revision);
      PlaceholdersResolve(asm, |order|, first);
    }
  }

  /** A table in shape gives every address instruction of the program an
      address. */
  lemma PlaceholdersResolve(asm: Assembly, k: nat, first: int)
    requires Placeholders(asm, k)
    ensures Numbered(asm.symbolOrder, asm.symbols, k)
    ensures var lookup := Allocation(asm.symbolOrder, asm.symbols, asm.jumps, first).0;
      forall i | 0 <= i < |asm.instructions| :: Resolvable(asm.instructions[i], lookup)
  {
    var order := asm.symbolOrder;
    AllocationResolves(order, asm.symbols, asm.jumps, first, k, |order|);
    assert order[..|order|] == order;
  }

  /** The address an A instruction receives: one that holds the placeholder
      of the i-th key gets the label's index when the name labels an
      instruction, and otherwise the first unreserved address plus the number
      of variables among the keys before it. Every other instruction comes
      through as it is. */
  lemma ResolvedAddress(asm: Assembly, k: nat, first: int, n: nat)
    requires Placeholders(asm, k) && n < |asm.instructions|
    ensures var lookup := Allocation(asm.symbolOrder, asm.symbols, asm.jumps, first).0;
      var cmd := asm.instructions[n];
      var keys := asm.symbolOrder;
      && Resolvable(cmd, lookup)
      && (!(cmd.Address? && cmd.rawValue < 0) ==> Resolve(cmd, lookup) == cmd)
      && (cmd.Address? && cmd.rawValue < 0 ==>
            var i := k - 1 - cmd.rawValue;
            && k <= i < |keys|
            && Resolve(cmd, lookup) == Address(if keys[i] in asm.jumps then asm.jumps[keys[i]]
                                               else first + Variables(keys, asm.jumps, k, i)))
  {
    var cmd := asm.instructions[n];
    PlaceholdersResolve(asm, k, first);
    if cmd.Address? && cmd.rawValue < 0 {
      var i := k - 1 - cmd.rawValue;
      assert cmd.rawValue > asm.nextPlaceholder;
      LookupAt(asm.symbolOrder, asm.symbols, asm.jumps, first, k, i);
    }
  }

  /** The lookup entry of the i-th key's placeholder. */
  lemma LookupAt(order: seq<string>, symbols: map<string, int>, jumps: map<string, int>, first: int, k: nat, i: nat)
    requires Numbered(order, symbols, k) && k <= i < |order|
    ensures var lookup := Allocation(order, symbols, jumps, first).0;
      && k - 1 - i in lookup
      && lookup[k - 1 - i] == if order[i] in jumps then jumps[order[i]] else first + Variables(order, jumps, k, i)
  {
    AllocationResolves(order, symbols, jumps, first, k, |order|);
    assert order[..|order|] == order;
  }

  /** The compiled program, instruction by instruction: an address
      instruction that held the placeholder of the i-th key now holds the
      label's index or the variable's address, every other instruction is the
      parser's. */
  lemma CompiledAddresses(tokens: seq<Token>, reserved: map<string, int>, order: seq<string>, first: int, revision: Revision, n: nat)
    requires ReservedTable(reserved, order)
    requires ParseTokens(tokens, reserved, order, revision).Success?
    requires n < |ParseTokens(tokens, reserved, order, revision).value.instructions|
    ensures var asm := ParseTokens(tokens, reserved, order, revision).value;
      var cmd := asm.instructions[n];
      var keys := asm.symbolOrder;
      var out := Compiled(tokens, reserved, order, first, revision);
      && out.Success? && |out.value| == |asm.instructions|
      && (!(cmd.Address? && cmd.rawValue < 0) ==> out.value[n] == cmd)
      && (cmd.Address? && cmd.rawValue < 0 ==>
            var i := |order| - 1 - cmd.rawValue;
            && |order| <= i < |keys|
            && out.value[n] == Address(if keys[i] in asm.jumps then asm.jumps[keys[i]]
                                       else first + Variables(keys, asm.jumps, |order|, i)))
  {
    var asm := ParseTokens(tokens, reserved, order, revision).value;
    CompiledResolves(tokens, reserved, order, first, revision);
    ResolvedAddress(asm, |order|, first, n);
    var lookup := Allocation(asm.symbolOrder, asm.symbols, asm.jumps, first).0;
    assert Compiled(tokens, reserved, order, first, revision).value[n] == Resolve(asm.instructions[n], lookup);
  }

  /** A successful parse compiles to its instructions, each resolved. */
  lemma CompiledResolves(tokens: seq<Token>, reserved: map<string, int>, order: seq<string>, first: int, revision: Revision)
    requires ReservedTable(reserved, order)
    requires ParseTokens(tokens, reserved, order, revision).Success?
    ensures var asm := ParseTokens(tokens, reserved, order, revision).value;
      && Placeholders(asm, |order|)
      && var lookup := Allocation(asm.symbolOrder, asm.symbols, asm.jumps, first).0;
      var out := Compiled(tokens, reserved, order, first, revision);
      && (forall i | 0 <= i < |asm.instructions| :: Resolvable(asm.instructions[i], lookup))
      && out.Success? && |out.value| == |asm.instructions|
      && (forall i | 0 <= i < |asm.instructions| :: out.value[i] == Resolve(asm.instructions[i], lookup))
  {
    var asm := ParseTokens(tokens, reserved, order, revision).value;
    ParseKeeps(tokens, reserved, order, revision);
    PlaceholdersResolve(asm, |order|, first);
  }

  /** With a non-negative first unreserved address, the compiled program holds
      no negative address. */
  lemma CompiledAddressesNonNegative(tokens: seq<Token>, reserved: map<string, int>, order: seq<string>, first: int, revision: Revision)
    requires ReservedTable(reserved, order) && first >= 0
    ensures var out := Compiled(tokens, reserved, order, first, revision);
      out.Success? ==> forall n | 0 <= n < |out.value| :: out.value[n].Address? ==> out.value[n].rawValue >= 0
  {
    var parsed := ParseTokens(tokens, reserved, order, revision);
    var out := Compiled(tokens, reserved, order, first, revision);
    if out.Success? {
      CompileNeverBreaks(tokens, reserved, order, first, revision);
      var asm := parsed.value;
      ParseKeeps(tokens, reserved, order, revision);
      forall n | 0 <= n < |out.value|
        ensures out.value[n].Address? ==> out.value[n].rawValue >= 0
      {
        CompiledAddresses(tokens, reserved, order, first, revision, n);
      }
    }
  }
}
