/** The loop of `parse`, from the token sequence on: skip blank lines, stop at
    the end of the input, otherwise read one instruction and the separator or
    end that follows it. Every error escapes `parse`; its kind is kept. */
module Driver {
  import opened Base
  import opened Instructions
  import opened TokenCursor
  import opened Grammar
  import opened Discipline

  /** `while (p.optional(() => p.expect("separator"))) { }` */
  function SkipSeparators(c: Cursor, asm: Assembly, revision: Revision): (s: Step<()>)
    ensures Disciplined(c, asm, s, revision) && s.asm == asm
    ensures s.result.Failure? ==> s.result.error == Fatal
    decreases |Remaining(c)|
  {
    var o := Optional(ExpectSeparator, c, asm, revision);
    OptionalDisciplined(ExpectSeparator, c, asm, revision);
    if o.result.Failure? then Step(Failure(o.result.error), o.cursor, asm)
    else if o.result.value.None? then Step(Success(()), o.cursor, asm)
    else
      var s := SkipSeparators(o.cursor, asm, revision);
      AdvancedTrans(c, o.cursor, s.cursor);
      s
  }

  /** The iterations of the outer `while (!reachedEnd)` loop from cursor c on:
      the program when the end of input is reached, or the first error. */
  function Lines(c: Cursor, asm: Assembly, revision: Revision): (r: Result<Assembly>)
    ensures r.Failure? ==> r.error != Internal
    decreases |Remaining(c)|, 2
  {
    var s := SkipSeparators(c, asm, revision);
    if s.result.Failure? then Failure(s.result.error)
    else Line(c, s.cursor, asm, revision)
  }

  /** One iteration once the blank lines before it are skipped (the loop
      started at c and is now at d): the end of input, or an instruction. */
  function Line(c: Cursor, d: Cursor, asm: Assembly, revision: Revision): (r: Result<Assembly>)
    requires Advanced(c, d)
    ensures r.Failure? ==> r.error != Internal
    decreases |Remaining(c)|, 1
  {
    var e := Optional(ExpectEnd, d, asm, revision);
    OptionalDisciplined(ExpectEnd, d, asm, revision);
    if e.result.Failure? then Failure(e.result.error)
    else if e.result.value.Some? then Success(asm)
    else
      var m := Match(NextInstruction, e.cursor, asm, revision);
      MatchDisciplined(NextInstruction, e.cursor, asm, revision);
      AdvancedTrans(c, d, e.cursor);
      AdvancedTrans(c, e.cursor, m.cursor);
      LineEnd(c, m, revision)
  }

  /** The rest of an iteration once its instruction has been matched: the
      separator or the end of input that must follow it. */
  function LineEnd(c: Cursor, m: Step<(nat, Value)>, revision: Revision): (r: Result<Assembly>)
    requires Advanced(c, m.cursor) && Progress(c, m)
    requires m.result != Failure(Internal)
    ensures r.Failure? ==> r.error != Internal
    decreases |Remaining(c)|, 0
  {
    if m.result.Failure? then Failure(m.result.error)
    else
      var t := Match(SeparatorOrEnd, m.cursor, m.asm, revision);
      MatchDisciplined(SeparatorOrEnd, m.cursor, m.asm, revision);
      if t.result.Failure? then Failure(t.result.error)
      else if t.result.value.0 == 1 then Success(t.asm)
      else
        AdvancedTrans(c, m.cursor, t.cursor);
        Lines(t.cursor, t.asm, revision)
  }

  /** The state `parse` starts from: the lexer's tokens, no buffer, the
      reserved symbols and the first placeholder -1. */
  function Start(tokens: seq<Token>, reserved: map<string, int>, reservedOrder: seq<string>): (c: (Cursor, Assembly))
    ensures Remaining(c.0) == tokens && c.0.stack == []
    ensures c.1.instructions == [] && c.1.jumps == map[] && c.1.nextPlaceholder == -1
  {
    (Cursor(tokens, [], [], None), Assembly([], reserved, reservedOrder, map[], -1))
  }

  /** `parse`, on the tokens the lexer produces. The symbol table starts as a
      copy of the reserved symbols, whose keys come in the order given. */
  function ParseTokens(tokens: seq<Token>, reserved: map<string, int>, reservedOrder: seq<string>, revision: Revision): (r: Result<Assembly>)
    ensures r.Failure? ==> r.error != Internal
  {
    var start := Start(tokens, reserved, reservedOrder);
    Lines(start.0, start.1, revision)
  }
}
