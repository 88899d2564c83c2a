/** The token cursor underneath the parser's backtracking: a queue of tokens
    pushed back by a rollback, the tokens the lexer has yet to produce, a stack
    of look-ahead buffers recording what each pending attempt consumed, and the
    last token looked at (used for error positions). Every operation is a pure
    function from the old cursor to a result and the new cursor; the `Parser`
    class mirrors them on its fields. */
module TokenCursor {
  import opened Base
  import opened Instructions

  /** The tokens the lexer produces; an `operation` token carries its operator,
      an `identifier` its text and a `number` the value of its digits. */
  datatype Token =
    | LoadMarker
    | OpenDeclaration
    | CloseDeclaration
    | Assignment
    | JumpMarker
    | Separator
    | OperationToken(op: Operation)
    | Identifier(name: string)
    | Number(value: nat)
    | EOF

  /** The token type names `expect` is given. */
  datatype Kind =
    | LoadMarkerKind
    | OpenDeclarationKind
    | CloseDeclarationKind
    | AssignmentKind
    | JumpKind
    | SeparatorKind
    | OperationKind
    | IdentifierKind
    | NumberKind
    | EOFKind

  function KindOf(t: Token): Kind
  {
    match t
    case LoadMarker => LoadMarkerKind
    case OpenDeclaration => OpenDeclarationKind
    case CloseDeclaration => CloseDeclarationKind
    case Assignment => AssignmentKind
    case JumpMarker => JumpKind
    case Separator => SeparatorKind
    case OperationToken(_) => OperationKind
    case Identifier(_) => IdentifierKind
    case Number(_) => NumberKind
    case EOF => EOFKind
  }

  /** The value restrictions `expect` is called with: none, the list `[!, -]`
      of unary operators, or the predicate "not `!`" for binary operators. */
  datatype Allowed = AnyValue | UnaryOperators | BinaryOperators

  predicate Admits(allowed: Allowed, t: Token)
  {
    match allowed
    case AnyValue => true
    case UnaryOperators => t.OperationToken? && (t.op == Not || t.op == Subtract)
    case BinaryOperators => t.OperationToken? && t.op != Not
  }

  /** `lexer` holds the tokens the lexer will still hand out, in order; once it
      is empty the lexer answers `null`. */
  datatype Cursor = Cursor(
    lexer: seq<Token>,
    available: seq<Token>,
    stack: seq<seq<Token>>,
    lastChecked: Option<Token>)

  /** The tokens the cursor will deliver next, in order. */
  function Remaining(c: Cursor): seq<Token>
  {
    c.available + c.lexer
  }

  /** A result together with the cursor after the step that produced it. */
  datatype Scan<T> = Scan(result: T, cursor: Cursor)

  function Top(stack: seq<seq<Token>>): seq<Token>
    requires |stack| > 0
  {
    stack[|stack| - 1]
  }

  function Pop(stack: seq<seq<Token>>): seq<seq<Token>>
    requires |stack| > 0
  {
    stack[..|stack| - 1]
  }

  /** Appends `tokens` to the innermost buffer; with no buffer open they are
      not recorded anywhere. */
  function AppendToTop(stack: seq<seq<Token>>, tokens: seq<Token>): (r: seq<seq<Token>>)
    ensures |r| == |stack|
    ensures |stack| > 0 ==> Pop(r) == Pop(stack) && Top(r) == Top(stack) + tokens
  {
    if |stack| == 0 then stack else Pop(stack) + [Top(stack) + tokens]
  }

  /** nextTokenSimple: the front of the push-back queue if there is one,
      otherwise the lexer's next token; either way it becomes the last checked
      token. */
  function NextTokenSimple(c: Cursor): (r: Scan<Option<Token>>)
    ensures |Remaining(c)| == 0 ==> r.result == None && Remaining(r.cursor) == []
    ensures |Remaining(c)| > 0 ==>
      r.result == Some(Remaining(c)[0]) && Remaining(r.cursor) == Remaining(c)[1..]
    ensures r.cursor.stack == c.stack && r.cursor.lastChecked == r.result
  {
    if |c.available| > 0 then
      assert Remaining(c)[1..] == c.available[1..] + c.lexer;
      Scan(Some(c.available[0]), c.(available := c.available[1..], lastChecked := Some(c.available[0])))
    else if |c.lexer| > 0 then
      Scan(Some(c.lexer[0]), c.(lexer := c.lexer[1..], lastChecked := Some(c.lexer[0])))
    else
      Scan(None, c.(lastChecked := None))
  }

  /** nextToken: like nextTokenSimple, and a delivered token is recorded in the
      innermost look-ahead buffer. */
  function NextToken(c: Cursor): (r: Scan<Option<Token>>)
    ensures |Remaining(c)| == 0 ==>
      r.result == None && Remaining(r.cursor) == [] && r.cursor.stack == c.stack
    ensures |Remaining(c)| > 0 ==>
      r.result == Some(Remaining(c)[0]) && Remaining(r.cursor) == Remaining(c)[1..]
      && r.cursor.stack == AppendToTop(c.stack, [Remaining(c)[0]])
  {
    var s := NextTokenSimple(c);
    match s.result
    case None => s
    case Some(t) => Scan(Some(t), s.cursor.(stack := AppendToTop(s.cursor.stack, [t])))
  }

  /** lookAhead: opens a new, empty buffer. */
  function LookAhead(c: Cursor): (r: Cursor)
    ensures Remaining(r) == Remaining(c) && |r.stack| == |c.stack| + 1
    ensures Pop(r.stack) == c.stack && Top(r.stack) == []
  {
    c.(stack := c.stack + [[]])
  }

  /** rollback(purge): closes the innermost buffer. On success (`purge`) its
      tokens stay consumed and move to the enclosing buffer, if any; on failure
      they go back to the front of the queue, in their original order. With no
      buffer open it is an internal error. */
  function Rollback(c: Cursor, purge: bool): (r: Result<Cursor>)
    ensures r.Failure? <==> |c.stack| == 0
    ensures r.Failure? ==> r.error == Internal
    ensures r.Success? && purge ==>
      Remaining(r.value) == Remaining(c)
      && r.value.stack == AppendToTop(Pop(c.stack), Top(c.stack))
    ensures r.Success? && !purge ==>
      Remaining(r.value) == Top(c.stack) + Remaining(c) && r.value.stack == Pop(c.stack)
  {
    if |c.stack| == 0 then Failure(Internal)
    else if purge then Success(c.(stack := AppendToTop(Pop(c.stack), Top(c.stack))))
    else Success(c.(available := Top(c.stack) + c.available, stack := Pop(c.stack)))
  }

  /** expect(kind, allowed): takes one token. End of input and a token of
      another kind are ordinary errors that let an enclosing `optional` try
      something else; a token of the right kind whose value is not allowed is
      fatal. */
  function Expect(c: Cursor, kind: Kind, allowed: Allowed): (r: Scan<Result<Token>>)
    ensures r.result.Success? ==> KindOf(r.result.value) == kind && Admits(allowed, r.result.value)
    ensures r.result != Failure(Internal)
    ensures |Remaining(c)| == 0 ==>
      r.result == Failure(Speculative) && Remaining(r.cursor) == [] && r.cursor.stack == c.stack
    ensures |Remaining(c)| > 0 ==>
      Remaining(r.cursor) == Remaining(c)[1..]
      && r.cursor.stack == AppendToTop(c.stack, [Remaining(c)[0]])
      && r.result == (if KindOf(Remaining(c)[0]) != kind then Failure(Speculative)
                      else if !Admits(allowed, Remaining(c)[0]) then Failure(Fatal)
                      else Success(Remaining(c)[0]))
  {
    var s := NextToken(c);
    match s.result
    case None => Scan(Failure(Speculative), s.cursor)
    case Some(t) =>
      if KindOf(t) != kind then Scan(Failure(Speculative), s.cursor)
      else if !Admits(allowed, t) then Scan(Failure(Fatal), s.cursor)
      else Scan(Success(t), s.cursor)
  }
}
