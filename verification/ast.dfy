/** The abstract syntax tree of src/ast.rs. Boxes are values here, so trees
    are immutable and exclusively owned by construction. */
module Ast {
  import opened Wrappers
  import L = Lexing

  datatype BinaryOperator = Add | Subtract | Multiply | Divide

  datatype Node =
    | Number(literal: real)
    | Identifier(name: string)
    | BinaryOp(left: Node, op: BinaryOperator, right: Node)
    | Assignment(variable: string, value: Node)
    | Program(statements: seq<Node>)

  /** Shorthand for the leaves of the concrete programs. */
  function Num(x: real): Node { Node.Number(x) }
  function Var(name: string): Node { Node.Identifier(name) }

  /** An expression: a tree of numbers, identifiers and binary operations,
      the only shape the parser builds below an assignment. */
  predicate IsExpression(n: Node) {
    match n
    case Number(_) => true
    case Identifier(_) => true
    case BinaryOp(l, _, r) => IsExpression(l) && IsExpression(r)
    case Assignment(_, _) => false
    case Program(_) => false
  }

  /** A statement: an assignment of an expression. */
  predicate IsStatement(n: Node) {
    n.Assignment? && IsExpression(n.value)
  }

  /** A run of statements: the body of a parsed program. */
  predicate Statements(ss: seq<Node>) {
    forall i :: 0 <= i < |ss| ==> IsStatement(ss[i])
  }

  /** The variables an expression reads. */
  function Vars(e: Node): set<string>
    requires IsExpression(e)
  {
    match e
    case Number(_) => {}
    case Identifier(name) => {name}
    case BinaryOp(l, _, r) => Vars(l) + Vars(r)
  }

  /** The error of `token_to_binary_op`: the token that was not an operator. */
  datatype NotAnOperator = NotAnOperator(token: L.Token)

  predicate IsOperatorToken(t: L.Token) {
    t.Plus? || t.Minus? || t.Multiply? || t.Divide?
  }

  /** `token_to_binary_op`: the four operator tokens map to their operators,
      every other token is an error. */
  function TokenToBinaryOp(t: L.Token): (r: Result<BinaryOperator, NotAnOperator>)
    ensures r.Ok? <==> IsOperatorToken(t)
    ensures r.Err? ==> r.error == NotAnOperator(t)
  {
    match t
    case Plus => Ok(Add)
    case Minus => Ok(Subtract)
    case Multiply => Ok(BinaryOperator.Multiply)
    case Divide => Ok(BinaryOperator.Divide)
    case _ => Err(NotAnOperator(t))
  }

  /** The token of each operator: the inverse table. */
  function OperatorToken(op: BinaryOperator): (t: L.Token)
    ensures IsOperatorToken(t)
  {
    match op
    case Add => L.Plus
    case Subtract => L.Minus
    case Multiply => L.Token.Multiply
    case Divide => L.Token.Divide
  }

  /** `token_to_binary_op` and `OperatorToken` are mutually inverse, so the
      mapping is a bijection between operator tokens and operators. */
  lemma TokenToBinaryOpIsBijective(t: L.Token, op: BinaryOperator)
    ensures TokenToBinaryOp(t) == Ok(op) <==> t == OperatorToken(op)
  {
  }

  /** Distinct operator tokens give distinct operators. */
  lemma TokenToBinaryOpIsInjective(t1: L.Token, t2: L.Token)
    requires TokenToBinaryOp(t1).Ok? && TokenToBinaryOp(t2).Ok?
    requires TokenToBinaryOp(t1) == TokenToBinaryOp(t2)
    ensures t1 == t2
  {
  }
}
