/** Behaviour of the parser beyond the round trip: the operator loops
    never fail, so an operand missing after an operator truncates the
    expression instead of failing the statement; precedence and association
    on concrete programs. */
module ParserProperties {
  import opened Wrappers
  import L = Lexing
  import opened Ast
  import opened Parsing
  import opened ParserRoundTrip

  /** The `*`/`/` loop always succeeds. Without an operator it returns the
      factor built so far where it stands; when the operand after an
      operator fails, it returns that factor from where the operand failed,
      the operator consumed. */
  lemma {:induction false} FactorLoopNeverFails(toks: seq<L.Token>, pos: nat, left: Node)
    requires pos <= |toks| && IsExpression(left)
    ensures FactorLoop(toks, pos, left).Parsed?
    ensures !(Peek(toks, pos).Multiply? || Peek(toks, pos).Divide?) ==> FactorLoop(toks, pos, left) == Parsed(left, pos)
    ensures (Peek(toks, pos).Multiply? || Peek(toks, pos).Divide?) && ParsePrimary(toks, pos + 1).Failed?
            ==> FactorLoop(toks, pos, left) == Parsed(left, ParsePrimary(toks, pos + 1).next)
    decreases |toks| - pos
  {
    var t := Peek(toks, pos);
    if t.Multiply? || t.Divide? {
      assert ExpectOperator(toks, pos) == Parsed(t, pos + 1);
      match ParsePrimary(toks, pos + 1)
      case Parsed(right, p) =>
        var op := TokenToBinaryOp(t).value;
        FactorLoopNeverFails(toks, p, BinaryOp(left, op, right));
      case Failed(_, _) =>
    }
  }

  /** The `+`/`-` loop always succeeds, with the same recovery when the
      factor after an operator fails. */
  lemma {:induction false} TermLoopNeverFails(toks: seq<L.Token>, pos: nat, left: Node)
    requires pos <= |toks| && IsExpression(left)
    ensures TermLoop(toks, pos, left).Parsed?
    ensures !(Peek(toks, pos).Plus? || Peek(toks, pos).Minus?) ==> TermLoop(toks, pos, left) == Parsed(left, pos)
    ensures (Peek(toks, pos).Plus? || Peek(toks, pos).Minus?) && ParseFactor(toks, pos + 1).Failed?
            ==> TermLoop(toks, pos, left) == Parsed(left, ParseFactor(toks, pos + 1).next)
    decreases |toks| - pos
  {
    var t := Peek(toks, pos);
    if t.Plus? || t.Minus? {
      assert ExpectOperator(toks, pos) == Parsed(t, pos + 1);
      match ParseFactor(toks, pos + 1)
      case Parsed(right, p) =>
        var op := TokenToBinaryOp(t).value;
        TermLoopNeverFails(toks, p, BinaryOp(left, op, right));
      case Failed(_, _) =>
    }
  }

  /** An expression fails exactly when its first primary does: whatever
      goes wrong after the first operand is recovered from, not reported. */
  lemma ExpressionFailsOnlyAtFirstPrimary(toks: seq<L.Token>, pos: nat)
    requires pos <= |toks|
    ensures ParseExpression(toks, pos).Failed? <==> ParsePrimary(toks, pos).Failed?
  {
    var first := ParsePrimary(toks, pos);
    if first.Parsed? {
      FactorLoopNeverFails(toks, first.next, first.value);
      var factor := ParseFactor(toks, pos);
      assert factor.Parsed?;
      TermLoopNeverFails(toks, factor.next, factor.value);
      assert ParseTerm(toks, pos).Parsed?;
    } else {
      assert ParseFactor(toks, pos).Failed?;
      assert ParseTerm(toks, pos).Failed?;
    }
  }

  // ---------------------------------------------------------------------------
  // Statement lists

  /** `ss` is what the statement loop reads from `pos` up to `q`: each
      statement starts before `EoF` and parses, and the next one starts
      where it ended. */
  predicate ParsesInSequence(toks: seq<L.Token>, pos: nat, ss: seq<Node>, q: nat)
    requires pos <= |toks|
    decreases |ss|
  {
    if |ss| == 0 then q == pos
    else
      && Peek(toks, pos) != L.EoF
      && ParseAssignment(toks, pos).Parsed?
      && ParseAssignment(toks, pos).value == ss[0]
      && ParsesInSequence(toks, ParseAssignment(toks, pos).next, ss[1..], q)
  }

  /** A chain of statements that reaches `EoF` is the loop's result; one
      that reaches a failing statement makes that statement's error the
      loop's error, whatever follows it. */
  lemma {:induction false} StatementsFollowChain(toks: seq<L.Token>, pos: nat, ss: seq<Node>, q: nat)
    requires pos <= |toks| && ParsesInSequence(toks, pos, ss, q)
    ensures q <= |toks|
    ensures Peek(toks, q) == L.EoF ==> ParseStatements(toks, pos) == Ok(ss)
    ensures q <= |toks| && Peek(toks, q) != L.EoF && ParseAssignment(toks, q).Failed?
            ==> ParseStatements(toks, pos) == Err(ParseAssignment(toks, q).error)
    decreases |ss|
  {
    if |ss| > 0 {
      StatementsFollowChain(toks, ParseAssignment(toks, pos).next, ss[1..], q);
      assert [ss[0]] + ss[1..] == ss;
    }
  }

  /** The statements the loop returns were read one after another up to
      `EoF`. */
  lemma {:induction false} StatementsResultIsChain(toks: seq<L.Token>, pos: nat)
    requires pos <= |toks| && ParseStatements(toks, pos).Ok?
    ensures exists q: nat :: q <= |toks| && ParsesInSequence(toks, pos, ParseStatements(toks, pos).value, q) && Peek(toks, q) == L.EoF
    decreases |toks| - pos
  {
    var ss := ParseStatements(toks, pos).value;
    if Peek(toks, pos) == L.EoF {
      assert ParsesInSequence(toks, pos, ss, pos);
    } else {
      var p := ParseAssignment(toks, pos).next;
      StatementsResultIsChain(toks, p);
      var q: nat :| q <= |toks| && ParsesInSequence(toks, p, ParseStatements(toks, p).value, q) && Peek(toks, q) == L.EoF;
      assert ss[1..] == ParseStatements(toks, p).value;
      assert ParsesInSequence(toks, pos, ss, q);
    }
  }

  /** The loop's error is the error of the first statement that fails:
      every statement before it parsed, and none started at `EoF`. */
  lemma {:induction false} StatementsErrorIsFirstFailure(toks: seq<L.Token>, pos: nat)
    requires pos <= |toks| && ParseStatements(toks, pos).Err?
    ensures exists ss: seq<Node>, q: nat ::
              && q <= |toks|
              && ParsesInSequence(toks, pos, ss, q)
              && Peek(toks, q) != L.EoF
              && ParseAssignment(toks, q).Failed?
              && ParseAssignment(toks, q).error == ParseStatements(toks, pos).error
    decreases |toks| - pos
  {
    match ParseAssignment(toks, pos)
    case Failed(_, _) =>
      assert ParsesInSequence(toks, pos, [], pos);
    case Parsed(s, p) =>
      StatementsErrorIsFirstFailure(toks, p);
      var ss: seq<Node>, q: nat :| && q <= |toks| && ParsesInSequence(toks, p, ss, q) && Peek(toks, q) != L.EoF
                                   && ParseAssignment(toks, q).Failed?
                                   && ParseAssignment(toks, q).error == ParseStatements(toks, p).error;
      assert ([s] + ss)[1..] == ss;
      assert ParsesInSequence(toks, pos, [s] + ss, q);
  }

  /** `parse_program` over a chain of statements from the start: it yields
      the chain's statements when the chain reaches `EoF`, and the error of
      the failing statement the chain reaches otherwise. */
  lemma ProgramFollowsChain(toks: seq<L.Token>, ss: seq<Node>, q: nat)
    requires ParsesInSequence(toks, 0, ss, q)
    ensures Peek(toks, q) == L.EoF ==> ParseProgram(toks) == Ok(Program(ss))
    ensures q <= |toks| && Peek(toks, q) != L.EoF && ParseAssignment(toks, q).Failed?
            ==> ParseProgram(toks) == Err(ParseAssignment(toks, q).error)
  {
    StatementsFollowChain(toks, 0, ss, q);
  }

  /** A program that fails to parse fails with its first failing
      statement's error. */
  lemma ProgramErrorIsFirstFailure(toks: seq<L.Token>)
    requires ParseProgram(toks).Err?
    ensures exists ss: seq<Node>, q: nat ::
              && q <= |toks|
              && ParsesInSequence(toks, 0, ss, q)
              && Peek(toks, q) != L.EoF
              && ParseAssignment(toks, q).Failed?
              && ParseAssignment(toks, q).error == ParseProgram(toks).error
  {
    StatementsErrorIsFirstFailure(toks, 0);
  }

  // ---------------------------------------------------------------------------
  // Concrete programs

  /** `x = 10 + 5 * 2;`: multiplication binds tighter than addition. */
  lemma PrecedenceExample()
    ensures ParseProgram([L.Token.Identifier("x"), L.Assign, L.Token.Number(10.0), L.Plus,
                          L.Token.Number(5.0), L.Token.Multiply, L.Token.Number(2.0), L.Semi, L.EoF])
         == Ok(Program([Assignment("x", BinaryOp(Num(10.0), Add, BinaryOp(Num(5.0), BinaryOperator.Multiply, Num(2.0))))]))
  {
    var ss := [Assignment("x", BinaryOp(Num(10.0), Add, BinaryOp(Num(5.0), BinaryOperator.Multiply, Num(2.0))))];
    ProgramRoundTrip(ss);
    assert PrintProgram(ss) == [L.Token.Identifier("x"), L.Assign, L.Token.Number(10.0), L.Plus,
                                L.Token.Number(5.0), L.Token.Multiply, L.Token.Number(2.0), L.Semi, L.EoF];
  }

  /** `y = a - b - c;`: operators of one level associate to the left. */
  lemma LeftAssociationExample()
    ensures ParseProgram([L.Token.Identifier("y"), L.Assign, L.Token.Identifier("a"), L.Minus,
                          L.Token.Identifier("b"), L.Minus, L.Token.Identifier("c"), L.Semi, L.EoF])
         == Ok(Program([Assignment("y", BinaryOp(BinaryOp(Var("a"), Subtract, Var("b")), Subtract, Var("c")))]))
  {
    var ss := [Assignment("y", BinaryOp(BinaryOp(Var("a"), Subtract, Var("b")), Subtract, Var("c")))];
    ProgramRoundTrip(ss);
    assert PrintProgram(ss) == [L.Token.Identifier("y"), L.Assign, L.Token.Identifier("a"), L.Minus,
                                L.Token.Identifier("b"), L.Minus, L.Token.Identifier("c"), L.Semi, L.EoF];
  }

  /** `y = a - (b - c);`: parentheses regroup, and add no node of their own. */
  lemma ParenthesesExample()
    ensures ParseProgram([L.Token.Identifier("y"), L.Assign, L.Token.Identifier("a"), L.Minus, L.LParen,
                          L.Token.Identifier("b"), L.Minus, L.Token.Identifier("c"), L.RParen, L.Semi, L.EoF])
         == Ok(Program([Assignment("y", BinaryOp(Var("a"), Subtract, BinaryOp(Var("b"), Subtract, Var("c"))))]))
  {
    var ss := [Assignment("y", BinaryOp(Var("a"), Subtract, BinaryOp(Var("b"), Subtract, Var("c"))))];
    ProgramRoundTrip(ss);
    assert PrintProgram(ss) == [L.Token.Identifier("y"), L.Assign, L.Token.Identifier("a"), L.Minus, L.LParen,
                                L.Token.Identifier("b"), L.Minus, L.Token.Identifier("c"), L.RParen, L.Semi, L.EoF];
  }

  /** `x = 1 + ;`: the operand missing after `+` truncates the expression
      to `1`, and the statement still parses. */
  lemma MissingOperandExample()
    ensures ParseProgram([L.Token.Identifier("x"), L.Assign, L.Token.Number(1.0), L.Plus, L.Semi, L.EoF])
         == Ok(Program([Assignment("x", Num(1.0))]))
  {
    var toks := [L.Token.Identifier("x"), L.Assign, L.Token.Number(1.0), L.Plus, L.Semi, L.EoF];
    assert ParsePrimary(toks, 4).Failed?;
    assert ParseFactor(toks, 2) == Parsed(Num(1.0), 3);
    assert TermLoop(toks, 3, Num(1.0)) == Parsed(Num(1.0), 4);
    assert ParseAssignment(toks, 0) == Parsed(Assignment("x", Num(1.0)), 5);
    assert ParseStatements(toks, 5) == Ok([]);
    StatementsCombine(toks, 0, Assignment("x", Num(1.0)), 5, []);
    assert [Assignment("x", Num(1.0))] + [] == [Assignment("x", Num(1.0))];
  }

  /** `x = 1 + (2 ;`: the unclosed parenthesis fails the operand after it
      has consumed `(` and `2`; the expression is truncated to `1` and
      parsing resumes at `;`. */
  lemma UnclosedParenthesisExample()
    ensures ParseProgram([L.Token.Identifier("x"), L.Assign, L.Token.Number(1.0), L.Plus,
                          L.LParen, L.Token.Number(2.0), L.Semi, L.EoF])
         == Ok(Program([Assignment("x", Num(1.0))]))
  {
    var toks := [L.Token.Identifier("x"), L.Assign, L.Token.Number(1.0), L.Plus,
                 L.LParen, L.Token.Number(2.0), L.Semi, L.EoF];
    assert ParseExpression(toks, 5) == Parsed(Num(2.0), 6);
    assert ParsePrimary(toks, 4) == Failed(Unexpected(ExpectedToken(L.RParen), L.Semi), 6);
    assert ParseFactor(toks, 2) == Parsed(Num(1.0), 3);
    assert TermLoop(toks, 3, Num(1.0)) == Parsed(Num(1.0), 6);
    assert ParseAssignment(toks, 0) == Parsed(Assignment("x", Num(1.0)), 7);
    assert ParseStatements(toks, 7) == Ok([]);
    StatementsCombine(toks, 0, Assignment("x", Num(1.0)), 7, []);
    assert [Assignment("x", Num(1.0))] + [] == [Assignment("x", Num(1.0))];
  }

  /** `x 5;`: a statement without `=` is an error naming the token found. */
  lemma MissingAssignExample()
    ensures ParseProgram([L.Token.Identifier("x"), L.Token.Number(5.0), L.Semi, L.EoF])
         == Err(Unexpected(ExpectedToken(L.Assign), L.Token.Number(5.0)))
  {
    var toks := [L.Token.Identifier("x"), L.Token.Number(5.0), L.Semi, L.EoF];
    assert ParseAssignment(toks, 0) == Failed(Unexpected(ExpectedToken(L.Assign), L.Token.Number(5.0)), 1);
  }
}
