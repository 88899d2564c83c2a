/** Failure-carrying wrappers shared by every stage of the assembler. */
module Base {

  datatype Option<+T> = None | Some(value: T)

  /** The three kinds of failure the assembler distinguishes.
      - Speculative: a plain `Error` thrown when a grammar alternative does not
        apply (`expect` on the wrong token kind, `match` with no alternative left).
        `optional` swallows it.
      - Fatal: an error whose name is "fatal" (`Parser.fatal`); `optional` and
        `match` always let it through.
      - Internal: a plain `Error` whose message starts "Internal error" (a rollback
        without a lookahead, a placeholder with no resolved address). Its name is
        not "fatal", so `optional` swallows it just like a speculative failure. */
  datatype Error = Speculative | Fatal | Internal

  datatype Result<+T> = Success(value: T) | Failure(error: Error)

  /** 2 to the power n: the weight of bit n in a word. */
  function Pow2(n: nat): (r: nat)
    ensures r >= 1
  {
    if n == 0 then 1 else 2 * Pow2(n - 1)
  }
}
