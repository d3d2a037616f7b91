/** Properties of the parser: a printer that writes a tree back to tokens
    with the fewest parentheses the precedence rules allow, and the theorem
    that the parser reads every printed program back to the same tree. Since
    the printer leaves out every parenthesis that precedence and left
    association make redundant, the theorem pins down both. */
module ParserRoundTrip {
  import opened Wrappers
  import L = Lexing
  import opened Ast
  import opened Parsing

  predicate IsAdditive(op: BinaryOperator) { op == Add || op == Subtract }

  /** The tie-breaks that order calls among the three printers (and the three
      round-trip lemmas) on one node. */
  function SumRank(e: Node): nat {
    if !e.BinaryOp? then 2 else if IsAdditive(e.op) then 0 else 1
  }
  function ProductRank(e: Node): nat {
    if !e.BinaryOp? then 1 else if IsAdditive(e.op) then 2 else 0
  }
  function PrimaryRank(e: Node): nat {
    if !e.BinaryOp? then 0 else if IsAdditive(e.op) then 1 else 2
  }

  /** Tokens of `e` where a `term` is expected. */
  function PrintSum(e: Node): seq<L.Token>
    requires IsExpression(e)
    decreases e, SumRank(e)
  {
    if e.BinaryOp? && IsAdditive(e.op) then
      PrintSum(e.left) + [OperatorToken(e.op)] + PrintProduct(e.right)
    else
      PrintProduct(e)
  }

  /** Tokens of `e` where a `factor` is expected. */
  function PrintProduct(e: Node): seq<L.Token>
    requires IsExpression(e)
    decreases e, ProductRank(e)
  {
    if e.BinaryOp? && !IsAdditive(e.op) then
      PrintProduct(e.left) + [OperatorToken(e.op)] + PrintPrimary(e.right)
    else
      PrintPrimary(e)
  }

  /** Tokens of `e` where a `primary` is expected. */
  function PrintPrimary(e: Node): seq<L.Token>
    requires IsExpression(e)
    decreases e, PrimaryRank(e)
  {
    match e
    case Number(v) => [L.Token.Number(v)]
    case Identifier(name) => [L.Token.Identifier(name)]
    case BinaryOp(_, _, _) => [L.LParen] + PrintSum(e) + [L.RParen]
  }

  function PrintStatement(s: Node): seq<L.Token>
    requires IsStatement(s)
  {
    [L.Token.Identifier(s.variable), L.Assign] + PrintSum(s.value) + [L.Semi]
  }

  function PrintStatements(ss: seq<Node>): seq<L.Token>
    requires Statements(ss)
  {
    if |ss| == 0 then [] else PrintStatement(ss[0]) + PrintStatements(ss[1..])
  }

  /** The token stream of a program: its statements, then `EoF`. */
  function PrintProgram(ss: seq<Node>): seq<L.Token>
    requires Statements(ss)
  {
    PrintStatements(ss) + [L.EoF]
  }

  /** `part` stands in `toks` at `pos`. */
  predicate Occurs(toks: seq<L.Token>, pos: nat, part: seq<L.Token>) {
    pos + |part| <= |toks| && toks[pos..pos + |part|] == part
  }

  lemma OccursSplit(toks: seq<L.Token>, pos: nat, a: seq<L.Token>, b: seq<L.Token>)
    requires Occurs(toks, pos, a + b)
    ensures Occurs(toks, pos, a) && Occurs(toks, pos + |a|, b)
  {
    assert toks[pos..pos + |a|] == (a + b)[..|a|];
    assert toks[pos + |a|..pos + |a| + |b|] == (a + b)[|a|..];
  }

  lemma OccursToken(toks: seq<L.Token>, pos: nat, t: L.Token)
    requires Occurs(toks, pos, [t])
    ensures Peek(toks, pos) == t
  {
    assert toks[pos] == toks[pos..pos + 1][0];
  }

  lemma OccursAround(toks: seq<L.Token>, pos: nat, a: seq<L.Token>, t: L.Token, b: seq<L.Token>)
    requires Occurs(toks, pos, a + [t] + b)
    ensures Occurs(toks, pos, a) && Peek(toks, pos + |a|) == t && Occurs(toks, pos + |a| + 1, b)
  {
    OccursSplit(toks, pos, a + [t], b);
    OccursSplit(toks, pos, a, [t]);
    OccursToken(toks, pos + |a|, t);
  }

  // ---------------------------------------------------------------------------
  // The layout of printed expressions: token by token, without sequences.

  function SumLen(e: Node): nat
    requires IsExpression(e)
    decreases e, SumRank(e)
  {
    if e.BinaryOp? && IsAdditive(e.op) then SumLen(e.left) + 1 + ProductLen(e.right) else ProductLen(e)
  }

  function ProductLen(e: Node): nat
    requires IsExpression(e)
    decreases e, ProductRank(e)
  {
    if e.BinaryOp? && !IsAdditive(e.op) then ProductLen(e.left) + 1 + PrimaryLen(e.right) else PrimaryLen(e)
  }

  function PrimaryLen(e: Node): nat
    requires IsExpression(e)
    decreases e, PrimaryRank(e)
  {
    if e.BinaryOp? then SumLen(e) + 2 else 1
  }

  /** The tokens of `e` as a term stand at `pos`. */
  predicate SumAt(toks: seq<L.Token>, pos: nat, e: Node)
    requires IsExpression(e)
    decreases e, SumRank(e)
  {
    if e.BinaryOp? && IsAdditive(e.op) then
      var mid := pos + SumLen(e.left);
      SumAt(toks, pos, e.left) && Peek(toks, mid) == OperatorToken(e.op) && ProductAt(toks, mid + 1, e.right)
    else
      ProductAt(toks, pos, e)
  }

  /** The tokens of `e` as a factor stand at `pos`. */
  predicate ProductAt(toks: seq<L.Token>, pos: nat, e: Node)
    requires IsExpression(e)
    decreases e, ProductRank(e)
  {
    if e.BinaryOp? && !IsAdditive(e.op) then
      var mid := pos + ProductLen(e.left);
      ProductAt(toks, pos, e.left) && Peek(toks, mid) == OperatorToken(e.op) && PrimaryAt(toks, mid + 1, e.right)
    else
      PrimaryAt(toks, pos, e)
  }

  /** The tokens of `e` as a primary stand at `pos`. */
  predicate PrimaryAt(toks: seq<L.Token>, pos: nat, e: Node)
    requires IsExpression(e)
    decreases e, PrimaryRank(e)
  {
    match e
    case Number(v) => Peek(toks, pos) == L.Token.Number(v)
    case Identifier(name) => Peek(toks, pos) == L.Token.Identifier(name)
    case BinaryOp(_, _, _) =>
      Peek(toks, pos) == L.LParen && SumAt(toks, pos + 1, e) && Peek(toks, pos + 1 + SumLen(e)) == L.RParen
  }

  lemma {:induction false} PrintedSumLaidOut(toks: seq<L.Token>, pos: nat, e: Node)
    requires IsExpression(e) && Occurs(toks, pos, PrintSum(e))
    ensures |PrintSum(e)| == SumLen(e) && SumAt(toks, pos, e)
    decreases e, SumRank(e)
  {
    if e.BinaryOp? && IsAdditive(e.op) {
      var a, b := PrintSum(e.left), PrintProduct(e.right);
      assert PrintSum(e) == a + [OperatorToken(e.op)] + b;
      OccursAround(toks, pos, a, OperatorToken(e.op), b);
      PrintedSumLaidOut(toks, pos, e.left);
      PrintedProductLaidOut(toks, pos + |a| + 1, e.right);
    } else {
      PrintedProductLaidOut(toks, pos, e);
    }
  }

  lemma {:induction false} PrintedProductLaidOut(toks: seq<L.Token>, pos: nat, e: Node)
    requires IsExpression(e) && Occurs(toks, pos, PrintProduct(e))
    ensures |PrintProduct(e)| == ProductLen(e) && ProductAt(toks, pos, e)
    decreases e, ProductRank(e)
  {
    if e.BinaryOp? && !IsAdditive(e.op) {
      var a, b := PrintProduct(e.left), PrintPrimary(e.right);
      assert PrintProduct(e) == a + [OperatorToken(e.op)] + b;
      OccursAround(toks, pos, a, OperatorToken(e.op), b);
      PrintedProductLaidOut(toks, pos, e.left);
      PrintedPrimaryLaidOut(toks, pos + |a| + 1, e.right);
    } else {
      PrintedPrimaryLaidOut(toks, pos, e);
    }
  }

  lemma {:induction false} PrintedPrimaryLaidOut(toks: seq<L.Token>, pos: nat, e: Node)
    requires IsExpression(e) && Occurs(toks, pos, PrintPrimary(e))
    ensures |PrintPrimary(e)| == PrimaryLen(e) && PrimaryAt(toks, pos, e)
    decreases e, PrimaryRank(e)
  {
    match e
    case Number(v) =>
      OccursToken(toks, pos, L.Token.Number(v));
    case Identifier(name) =>
      OccursToken(toks, pos, L.Token.Identifier(name));
    case BinaryOp(_, _, _) =>
      var inner := PrintSum(e);
      assert PrintPrimary(e) == [L.LParen] + inner + [L.RParen];
      OccursAround(toks, pos, [L.LParen] + inner, L.RParen, []);
      OccursSplit(toks, pos, [L.LParen], inner);
      OccursToken(toks, pos, L.LParen);
      PrintedSumLaidOut(toks, pos + 1, e);
  }

  // ---------------------------------------------------------------------------
  // The parser over laid-out expressions.

  predicate IsProductOperator(t: L.Token) { t.Multiply? || t.Divide? }

  /** One turn of the `*`/`/` loop over an operator and a primary. */
  lemma FactorLoopStep(toks: seq<L.Token>, mid: nat, end: nat, left: Node, op: BinaryOperator, right: Node)
    requires mid < |toks| && IsExpression(left) && !IsAdditive(op)
    requires Peek(toks, mid) == OperatorToken(op)
    requires ParsePrimary(toks, mid + 1) == Parsed(right, end)
    ensures FactorLoop(toks, mid, left) == FactorLoop(toks, end, BinaryOp(left, op, right))
  {
    assert ExpectOperator(toks, mid) == Parsed(OperatorToken(op), mid + 1);
    assert TokenToBinaryOp(OperatorToken(op)) == Ok(op);
  }

  /** One turn of the `+`/`-` loop over an operator and a factor. */
  lemma TermLoopStep(toks: seq<L.Token>, mid: nat, end: nat, left: Node, op: BinaryOperator, right: Node)
    requires mid < |toks| && IsExpression(left) && IsAdditive(op)
    requires Peek(toks, mid) == OperatorToken(op)
    requires ParseFactor(toks, mid + 1) == Parsed(right, end)
    ensures TermLoop(toks, mid, left) == TermLoop(toks, end, BinaryOp(left, op, right))
  {
    assert ExpectOperator(toks, mid) == Parsed(OperatorToken(op), mid + 1);
    assert TokenToBinaryOp(OperatorToken(op)) == Ok(op);
  }

  /** The `*`/`/` loop stops at any other token. */
  lemma FactorLoopStop(toks: seq<L.Token>, pos: nat, left: Node)
    requires pos <= |toks| && IsExpression(left)
    requires !IsProductOperator(Peek(toks, pos))
    ensures FactorLoop(toks, pos, left) == Parsed(left, pos)
  {
  }

  /** The `+`/`-` loop stops at any other token. */
  lemma TermLoopStop(toks: seq<L.Token>, pos: nat, left: Node)
    requires pos <= |toks| && IsExpression(left)
    requires !Peek(toks, pos).Plus? && !Peek(toks, pos).Minus?
    ensures TermLoop(toks, pos, left) == Parsed(left, pos)
  {
  }

  /** The factor parsed up to `mid` and the primary from `mid + 1` to `end`
      combine into `e`. */
  lemma ProductCombine(toks: seq<L.Token>, pos: nat, mid: nat, end: nat, e: Node)
    requires IsExpression(e) && e.BinaryOp? && !IsAdditive(e.op)
    requires pos <= mid < end <= |toks|
    requires ParseFactor(toks, pos) == FactorLoop(toks, mid, e.left)
    requires Peek(toks, mid) == OperatorToken(e.op)
    requires ParsePrimary(toks, mid + 1) == Parsed(e.right, end)
    ensures ParseFactor(toks, pos) == FactorLoop(toks, end, e)
  {
    FactorLoopStep(toks, mid, end, e.left, e.op, e.right);
  }

  /** The term parsed up to `mid` and the factor from `mid + 1` to `end`
      combine into `e`. */
  lemma SumCombine(toks: seq<L.Token>, pos: nat, mid: nat, end: nat, e: Node)
    requires IsExpression(e) && e.BinaryOp? && IsAdditive(e.op)
    requires pos <= mid < end <= |toks|
    requires ParseTerm(toks, pos) == TermLoop(toks, mid, e.left)
    requires Peek(toks, mid) == OperatorToken(e.op)
    requires ParseFactor(toks, mid + 1) == FactorLoop(toks, end, e.right)
    requires !IsProductOperator(Peek(toks, end))
    ensures ParseTerm(toks, pos) == TermLoop(toks, end, e)
  {
    FactorLoopStop(toks, end, e.right);
    TermLoopStep(toks, mid, end, e.left, e.op, e.right);
  }

  /** A primary laid out at `pos` parses back to it, whatever follows. */
  lemma {:induction false} PrimaryParses(toks: seq<L.Token>, pos: nat, e: Node)
    requires IsExpression(e) && pos + PrimaryLen(e) <= |toks| && PrimaryAt(toks, pos, e)
    ensures ParsePrimary(toks, pos) == Parsed(e, pos + PrimaryLen(e))
    decreases e, PrimaryRank(e), 1
  {
    if e.BinaryOp? {
      var close := pos + 1 + SumLen(e);
      SumParses(toks, pos + 1, e);
      TermLoopStop(toks, close, e);
      assert ParseExpression(toks, pos + 1) == Parsed(e, close);
      assert ExpectToken(toks, close, L.RParen) == Parsed(L.RParen, close + 1);
    }
  }

  /** A factor laid out at `pos` brings the `*`/`/` loop to the point where
      it holds `e`. */
  lemma {:induction false} ProductParses(toks: seq<L.Token>, pos: nat, e: Node)
    requires IsExpression(e) && pos + ProductLen(e) <= |toks| && ProductAt(toks, pos, e)
    ensures ParseFactor(toks, pos) == FactorLoop(toks, pos + ProductLen(e), e)
    decreases e, ProductRank(e), 1
  {
    if e.BinaryOp? && !IsAdditive(e.op) {
      ProductOperationParses(toks, pos, e);
    } else {
      PrimaryParses(toks, pos, e);
    }
  }

  /** `ProductParses` for a product of a factor and a primary. */
  lemma {:induction false} ProductOperationParses(toks: seq<L.Token>, pos: nat, e: Node)
    requires IsExpression(e) && e.BinaryOp? && !IsAdditive(e.op)
    requires pos + ProductLen(e) <= |toks| && ProductAt(toks, pos, e)
    ensures ParseFactor(toks, pos) == FactorLoop(toks, pos + ProductLen(e), e)
    decreases e, ProductRank(e), 0
  {
    var mid := pos + ProductLen(e.left);
    var end := mid + 1 + PrimaryLen(e.right);
    assert pos + ProductLen(e) == end;
    assert ProductAt(toks, pos, e.left) && Peek(toks, mid) == OperatorToken(e.op) && PrimaryAt(toks, mid + 1, e.right);
    ProductParses(toks, pos, e.left);
    PrimaryParses(toks, mid + 1, e.right);
    ProductCombine(toks, pos, mid, end, e);
  }

  /** A term laid out at `pos` brings the `+`/`-` loop to the point where it
      holds `e`, provided no `*` or `/` follows it. */
  lemma {:induction false} SumParses(toks: seq<L.Token>, pos: nat, e: Node)
    requires IsExpression(e) && pos + SumLen(e) <= |toks| && SumAt(toks, pos, e)
    requires !IsProductOperator(Peek(toks, pos + SumLen(e)))
    ensures ParseTerm(toks, pos) == TermLoop(toks, pos + SumLen(e), e)
    decreases e, SumRank(e), 1
  {
    if e.BinaryOp? && IsAdditive(e.op) {
      SumOperationParses(toks, pos, e);
    } else {
      ProductParses(toks, pos, e);
      FactorLoopStop(toks, pos + SumLen(e), e);
    }
  }

  /** `SumParses` for a sum of a term and a factor. */
  lemma {:induction false} SumOperationParses(toks: seq<L.Token>, pos: nat, e: Node)
    requires IsExpression(e) && e.BinaryOp? && IsAdditive(e.op)
    requires pos + SumLen(e) <= |toks| && SumAt(toks, pos, e)
    requires !IsProductOperator(Peek(toks, pos + SumLen(e)))
    ensures ParseTerm(toks, pos) == TermLoop(toks, pos + SumLen(e), e)
    decreases e, SumRank(e), 0
  {
    var mid := pos + SumLen(e.left);
    var end := mid + 1 + ProductLen(e.right);
    assert pos + SumLen(e) == end;
    assert SumAt(toks, pos, e.left) && Peek(toks, mid) == OperatorToken(e.op) && ProductAt(toks, mid + 1, e.right);
    SumParses(toks, pos, e.left);
    ProductParses(toks, mid + 1, e.right);
    SumCombine(toks, pos, mid, end, e);
  }

  // ---------------------------------------------------------------------------
  // Printed expressions, statements and programs.

  /** An expression's tokens parse back to it when no operator follows them. */
  lemma ExpressionRoundTrip(toks: seq<L.Token>, pos: nat, e: Node)
    requires IsExpression(e) && Occurs(toks, pos, PrintSum(e))
    requires !IsOperatorToken(Peek(toks, pos + |PrintSum(e)|))
    ensures ParseExpression(toks, pos) == Parsed(e, pos + |PrintSum(e)|)
  {
    PrintedSumLaidOut(toks, pos, e);
    SumParses(toks, pos, e);
    TermLoopStop(toks, pos + SumLen(e), e);
  }

  lemma StatementRoundTrip(toks: seq<L.Token>, pos: nat, s: Node)
    requires IsStatement(s) && Occurs(toks, pos, PrintStatement(s))
    ensures ParseAssignment(toks, pos) == Parsed(s, pos + |PrintStatement(s)|)
  {
    var head, body := [L.Token.Identifier(s.variable), L.Assign], PrintSum(s.value);
    OccursSplit(toks, pos, head + body, [L.Semi]);
    OccursSplit(toks, pos, head, body);
    OccursSplit(toks, pos, [L.Token.Identifier(s.variable)], [L.Assign]);
    OccursToken(toks, pos, L.Token.Identifier(s.variable));
    OccursToken(toks, pos + 1, L.Assign);
    OccursToken(toks, pos + 2 + |body|, L.Semi);
    ExpressionRoundTrip(toks, pos + 2, s.value);
  }

  /** The first statement's tokens open the printed statements, and they
      start with its variable, so the program is not yet at `EoF`. */
  lemma StatementsSplit(toks: seq<L.Token>, pos: nat, ss: seq<Node>)
    requires |ss| > 0 && Statements(ss)
    requires Occurs(toks, pos, PrintStatements(ss))
    ensures Occurs(toks, pos, PrintStatement(ss[0]))
    ensures Occurs(toks, pos + |PrintStatement(ss[0])|, PrintStatements(ss[1..]))
    ensures |PrintStatements(ss)| == |PrintStatement(ss[0])| + |PrintStatements(ss[1..])|
    ensures Peek(toks, pos) != L.EoF
  {
    var a := PrintStatement(ss[0]);
    OccursSplit(toks, pos, a, PrintStatements(ss[1..]));
    assert a == [L.Token.Identifier(ss[0].variable)] + a[1..];
    OccursSplit(toks, pos, [L.Token.Identifier(ss[0].variable)], a[1..]);
    OccursToken(toks, pos, L.Token.Identifier(ss[0].variable));
  }

  /** A statement followed by statements that parse is prepended to them. */
  lemma StatementsCombine(toks: seq<L.Token>, pos: nat, s: Node, next: nat, rest: seq<Node>)
    requires pos <= |toks| && Peek(toks, pos) != L.EoF
    requires ParseAssignment(toks, pos) == Parsed(s, next)
    requires next <= |toks| && ParseStatements(toks, next) == Ok(rest)
    ensures ParseStatements(toks, pos) == Ok([s] + rest)
  {
  }

  lemma {:induction false} StatementsRoundTrip(toks: seq<L.Token>, pos: nat, ss: seq<Node>)
    requires Statements(ss)
    requires Occurs(toks, pos, PrintStatements(ss))
    requires Peek(toks, pos + |PrintStatements(ss)|) == L.EoF
    ensures ParseStatements(toks, pos) == Ok(ss)
    decreases |ss|
  {
    if |ss| > 0 {
      StatementsSplit(toks, pos, ss);
      var next := pos + |PrintStatement(ss[0])|;
      StatementRoundTrip(toks, pos, ss[0]);
      StatementsRoundTrip(toks, next, ss[1..]);
      StatementsCombine(toks, pos, ss[0], next, ss[1..]);
      assert [ss[0]] + ss[1..] == ss;
    }
  }

  /** The parser reads every printed program back to the same tree. */
  lemma ProgramRoundTrip(ss: seq<Node>)
    requires Statements(ss)
    ensures ParseProgram(PrintProgram(ss)) == Ok(Program(ss))
  {
    var toks := PrintProgram(ss);
    assert toks[0..|PrintStatements(ss)|] == PrintStatements(ss);
    StatementsRoundTrip(toks, 0, ss);
  }
}
