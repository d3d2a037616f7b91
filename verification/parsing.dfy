/** The recursive-descent parser of src/parser.rs, over the token stream the
    lexer yields. The parser state is a position in that stream; reading at
    or past its end yields `EoF`, as the lexer does once it is exhausted.

    Grammar, lowest precedence first:
      program    := assignment* EOF
      assignment := IDENT '=' expression ';'
      expression := term
      term       := factor (('+' | '-') factor)*
      factor     := primary (('*' | '/') primary)*
      primary    := NUMBER | IDENT | '(' expression ')'

    Every result carries the position the parser stands at afterwards, on
    failure as well: the operator loops resume from where a failed operand
    left the cursor. */
module Parsing {
  import opened Wrappers
  import L = Lexing
  import opened Ast

  /** What an `expect_*` helper wanted. */
  datatype Expectation =
    | ExpectedNumber
    | ExpectedIdentifier
    | ExpectedIdentifierOrNumber
    | ExpectedOperator
    | ExpectedToken(token: L.Token)

  datatype ParseError =
    | Unexpected(expected: Expectation, found: L.Token)
    | NotABinaryOperator(token: L.Token)

  /** A parse result with the position after it. */
  datatype Parsed<+T> = Parsed(value: T, next: nat) | Failed(error: ParseError, next: nat)

  /** The current token at `pos`. */
  function Peek(toks: seq<L.Token>, pos: nat): L.Token {
    if pos < |toks| then toks[pos] else L.EoF
  }

  // ---------------------------------------------------------------------------
  // Token expectations: each advances exactly when it succeeds.

  function ExpectNumber(toks: seq<L.Token>, pos: nat): (r: Parsed<L.Token>)
    ensures r.Parsed? <==> Peek(toks, pos).Number?
    ensures r.Parsed? ==> r.value == Peek(toks, pos) && r.next == pos + 1 && pos < |toks|
    ensures r.Failed? ==> r.next == pos && r.error == Unexpected(ExpectedNumber, Peek(toks, pos))
  {
    match Peek(toks, pos)
    case Number(x) => Parsed(L.Token.Number(x), pos + 1)
    case other => Failed(Unexpected(ExpectedNumber, other), pos)
  }

  function ExpectIdentifier(toks: seq<L.Token>, pos: nat): (r: Parsed<L.Token>)
    ensures r.Parsed? <==> Peek(toks, pos).Identifier?
    ensures r.Parsed? ==> r.value == Peek(toks, pos) && r.next == pos + 1 && pos < |toks|
    ensures r.Failed? ==> r.next == pos && r.error == Unexpected(ExpectedIdentifier, Peek(toks, pos))
  {
    match Peek(toks, pos)
    case Identifier(x) => Parsed(L.Token.Identifier(x), pos + 1)
    case other => Failed(Unexpected(ExpectedIdentifier, other), pos)
  }

  function ExpectIdentifierOrNumber(toks: seq<L.Token>, pos: nat): (r: Parsed<L.Token>)
    ensures r.Parsed? <==> Peek(toks, pos).Identifier? || Peek(toks, pos).Number?
    ensures r.Parsed? ==> r.value == Peek(toks, pos) && r.next == pos + 1 && pos < |toks|
    ensures r.Failed? ==> r.next == pos && r.error == Unexpected(ExpectedIdentifierOrNumber, Peek(toks, pos))
  {
    match Peek(toks, pos)
    case Identifier(_) => ExpectIdentifier(toks, pos)
    case Number(_) => ExpectNumber(toks, pos)
    case other => Failed(Unexpected(ExpectedIdentifierOrNumber, other), pos)
  }

  function ExpectOperator(toks: seq<L.Token>, pos: nat): (r: Parsed<L.Token>)
    ensures r.Parsed? <==> IsOperatorToken(Peek(toks, pos))
    ensures r.Parsed? ==> r.value == Peek(toks, pos) && r.next == pos + 1 && pos < |toks|
    ensures r.Failed? ==> r.next == pos && r.error == Unexpected(ExpectedOperator, Peek(toks, pos))
  {
    var t := Peek(toks, pos);
    if t.Plus? || t.Minus? || t.Multiply? || t.Divide? then
      Parsed(t, pos + 1)
    else
      Failed(Unexpected(ExpectedOperator, t), pos)
  }

  function ExpectToken(toks: seq<L.Token>, pos: nat, expected: L.Token): (r: Parsed<L.Token>)
    ensures r.Parsed? <==> Peek(toks, pos) == expected
    ensures r.Parsed? ==> r.value == expected && r.next == pos + 1
    ensures r.Parsed? && expected != L.EoF ==> pos < |toks|
    ensures r.Failed? ==> r.next == pos && r.error == Unexpected(ExpectedToken(expected), Peek(toks, pos))
  {
    if Peek(toks, pos) == expected then
      Parsed(expected, pos + 1)
    else
      Failed(Unexpected(ExpectedToken(expected), Peek(toks, pos)), pos)
  }

  // ---------------------------------------------------------------------------
  // Expressions. The second component of each `decreases` ranks the
  // functions that call one another without consuming a token.

  /** `parse_primary`: a number, an identifier, or a parenthesised expression
      (which adds no node of its own). */
  function ParsePrimary(toks: seq<L.Token>, pos: nat): (r: Parsed<Node>)
    requires pos <= |toks|
    ensures pos <= r.next <= |toks|
    ensures r.Parsed? ==> pos < r.next && IsExpression(r.value)
    decreases |toks| - pos, 0
  {
    if Peek(toks, pos) == L.LParen then
      var inner := ParseExpression(toks, pos + 1);
      if inner.Failed? then
        inner
      else
        var close := ExpectToken(toks, inner.next, L.RParen);
        if close.Failed? then Failed(close.error, close.next)
        else Parsed(inner.value, close.next)
    else
      var t := ExpectIdentifierOrNumber(toks, pos);
      match t
      case Failed(e, p) => Failed(e, p)
      case Parsed(Identifier(name), p) => Parsed(Node.Identifier(name), p)
      case Parsed(Number(v), p) => Parsed(Node.Number(v), p)
      case Parsed(_, p) => assert false; Failed(Unexpected(ExpectedIdentifierOrNumber, L.EoF), p)
  }

  /** `parse_factor`: primaries joined by `*` and `/`, folded to the left. */
  function ParseFactor(toks: seq<L.Token>, pos: nat): (r: Parsed<Node>)
    requires pos <= |toks|
    ensures pos <= r.next <= |toks|
    ensures r.Parsed? ==> pos < r.next && IsExpression(r.value)
    decreases |toks| - pos, 2
  {
    var first := ParsePrimary(toks, pos);
    if first.Failed? then first else FactorLoop(toks, first.next, first.value)
  }

  /** The loop of `parse_factor` with the expression built so far in `left`.
      When the operand after an operator fails, the operator stays consumed
      and `left` is returned as a success from where the operand failed. */
  function FactorLoop(toks: seq<L.Token>, pos: nat, left: Node): (r: Parsed<Node>)
    requires pos <= |toks| && IsExpression(left)
    ensures pos <= r.next <= |toks|
    ensures r.Parsed? ==> IsExpression(r.value)
    decreases |toks| - pos, 1
  {
    if Peek(toks, pos).Multiply? || Peek(toks, pos).Divide? then
      var opToken := ExpectOperator(toks, pos);
      if opToken.Failed? then assert false; Failed(Unexpected(ExpectedOperator, L.EoF), pos)
      else
        match ParsePrimary(toks, opToken.next)
        case Parsed(right, p) =>
          (match TokenToBinaryOp(opToken.value)
           case Ok(op) => FactorLoop(toks, p, BinaryOp(left, op, right))
           case Err(_) => assert false; Failed(NotABinaryOperator(L.EoF), p))
        case Failed(_, p) => Parsed(left, p)
    else
      Parsed(left, pos)
  }

  /** `parse_term`: factors joined by `+` and `-`, folded to the left. */
  function ParseTerm(toks: seq<L.Token>, pos: nat): (r: Parsed<Node>)
    requires pos <= |toks|
    ensures pos <= r.next <= |toks|
    ensures r.Parsed? ==> pos < r.next && IsExpression(r.value)
    decreases |toks| - pos, 4
  {
    var first := ParseFactor(toks, pos);
    if first.Failed? then first else TermLoop(toks, first.next, first.value)
  }

  /** The loop of `parse_term`, with the same recovery as `FactorLoop`. */
  function TermLoop(toks: seq<L.Token>, pos: nat, left: Node): (r: Parsed<Node>)
    requires pos <= |toks| && IsExpression(left)
    ensures pos <= r.next <= |toks|
    ensures r.Parsed? ==> IsExpression(r.value)
    decreases |toks| - pos, 3
  {
    if Peek(toks, pos).Plus? || Peek(toks, pos).Minus? then
      var opToken := ExpectOperator(toks, pos);
      if opToken.Failed? then assert false; Failed(Unexpected(ExpectedOperator, L.EoF), pos)
      else
        match ParseFactor(toks, opToken.next)
        case Parsed(right, p) =>
          (match TokenToBinaryOp(opToken.value)
           case Ok(op) => TermLoop(toks, p, BinaryOp(left, op, right))
           case Err(_) => assert false; Failed(NotABinaryOperator(L.EoF), p))
        case Failed(_, p) => Parsed(left, p)
    else
      Parsed(left, pos)
  }

  /** `parse_expression` */
  function ParseExpression(toks: seq<L.Token>, pos: nat): (r: Parsed<Node>)
    requires pos <= |toks|
    ensures pos <= r.next <= |toks|
    ensures r.Parsed? ==> pos < r.next && IsExpression(r.value)
    decreases |toks| - pos, 5
  {
    ParseTerm(toks, pos)
  }

  // ---------------------------------------------------------------------------
  // Statements and programs

  /** `parse_assignment` (and `parse_statement`, which only delegates). */
  function ParseAssignment(toks: seq<L.Token>, pos: nat): (r: Parsed<Node>)
    requires pos <= |toks|
    ensures pos <= r.next <= |toks|
    ensures r.Parsed? ==> pos < r.next && IsStatement(r.value)
  {
    var ident := ExpectIdentifier(toks, pos);
    if ident.Failed? then Failed(ident.error, ident.next)
    else
      var name := match ident.value
        case Identifier(name) => name
        case _ => assert false; "";
      var assign := ExpectToken(toks, ident.next, L.Assign);
      if assign.Failed? then Failed(assign.error, assign.next)
      else
        var expr := ParseExpression(toks, assign.next);
        if expr.Failed? then expr
        else
          var semi := ExpectToken(toks, expr.next, L.Semi);
          if semi.Failed? then Failed(semi.error, semi.next)
          else Parsed(Node.Assignment(name, expr.value), semi.next)
  }

  /** The loop of `parse_program`: statements until `EoF`, stopping at the
      first failing statement. */
  function ParseStatements(toks: seq<L.Token>, pos: nat): (r: Result<seq<Node>, ParseError>)
    requires pos <= |toks|
    ensures r.Ok? ==> Statements(r.value)
    decreases |toks| - pos
  {
    if Peek(toks, pos) == L.EoF then
      Ok([])
    else
      match ParseAssignment(toks, pos)
      case Failed(e, _) => Err(e)
      case Parsed(s, p) =>
        match ParseStatements(toks, p)
        case Ok(rest) => Ok([s] + rest)
        case Err(e) => Err(e)
  }

  /** `parse_program`: a `Program` of the statements in source order, or the
      first error. */
  function ParseProgram(toks: seq<L.Token>): (r: Result<Node, ParseError>)
    ensures r.Ok? ==> r.value.Program? && Statements(r.value.statements)
  {
    match ParseStatements(toks, 0)
    case Ok(statements) => Ok(Program(statements))
    case Err(e) => Err(e)
  }

  /** The parser constructed over the lexer of `input`. */
  function Parse(input: string): Result<Node, ParseError> {
    ParseProgram(L.Tokenize(input))
  }
}
