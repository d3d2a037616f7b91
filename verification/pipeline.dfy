/** The stages together: a program the intended analysis accepts, compiled
    and run against the table the analysis built, can only fault by
    dividing by zero; and the concrete programs that show the two
    discrepancies of the division check. */
module Pipeline {
  import opened Wrappers
  import opened Ast
  import opened SymbolTables
  import opened SemanticAnalysis
  import opened AnalysisProperties
  import C = Codegen
  import opened Machine
  import opened CompilerCorrectness

  /** Running well-scoped assignments, each reading only names stored
      before it, faults only on a zero divisor, and stores exactly the
      assigned names. */
  lemma {:induction false} InterpretFaultsOnlyOnDivision(t: SymbolTable, D: set<string>, storage: map<string, real>, ss: seq<Node>)
    requires t.Valid() && Statements(ss) && Clean(D, ss)
    requires D <= storage.Keys
    requires forall x :: x in D + Assigned(ss) ==> Lookup(t, x).Some?
    ensures Interpret(t, storage, ss, OnDivisor).Ok? || Interpret(t, storage, ss, OnDivisor).error == DivideByZero
    ensures Interpret(t, storage, ss, OnDivisor).Ok? ==> Interpret(t, storage, ss, OnDivisor).value.Keys == storage.Keys + Assigned(ss)
    decreases |ss|
  {
    if |ss| == 0 {
      assert storage.Keys + Assigned(ss) == storage.Keys;
    } else {
      var s := ss[0];
      CleanStep(D, ss);
      AssignedStep(ss, |ss| - 1);
      assert ss[..|ss|] == ss && ss[1..][..|ss| - 1] == ss[1..];
      assert Readable(t, storage, Vars(s.value));
      match Eval(t, storage, s.value, OnDivisor) {
        case Err(_) =>
        case Ok(v) =>
          var D' := D + {s.variable};
          assert D' + Assigned(ss[1..]) == D + Assigned(ss);
          InterpretFaultsOnlyOnDivision(t, D', storage[s.variable := v], ss[1..]);
          assert storage[s.variable := v].Keys + Assigned(ss[1..]) == storage.Keys + Assigned(ss);
      }
    }
  }

  /** The table the intended analysis builds for an accepted program
      declares exactly the assigned variables. */
  lemma AcceptedProgramTable(ss: seq<Node>)
    requires Statements(ss)
    requires Analyze(NewAnalyzer(), Program(ss), Intended).Ok?
    requires Analyze(NewAnalyzer(), Program(ss), Intended).value.verdict.Ok?
    ensures Clean({}, ss)
    ensures Flat(Analyze(NewAnalyzer(), Program(ss), Intended).value.analyzer.table, Assigned(ss))
  {
    NewTableIsFlat();
    VisitAllIntended(NewTable(), {}, [], ss);
    assert Visit(NewAnalyzer(), Program(ss), Intended) == VisitAll(Analyzer(NewTable(), []), ss, Intended);
    assert {} + Assigned(ss) == Assigned(ss);
  }

  /** End to end: when the intended analysis accepts a program, executing
      its instructions on the corrected machine, with the table the
      analysis built, either stores every assigned variable and nothing
      else, or stops on a zero divisor. No name is ever out of scope or
      missing from the store. */
  lemma AcceptedProgramsFaultOnlyOnDivision(ss: seq<Node>)
    requires Statements(ss)
    requires Analyze(NewAnalyzer(), Program(ss), Intended).Ok?
    requires Analyze(NewAnalyzer(), Program(ss), Intended).value.verdict.Ok?
    ensures var t := Analyze(NewAnalyzer(), Program(ss), Intended).value.analyzer.table;
            var run := Execute(NewVm(C.GenerateInstructions(C.NewInterpreter(), Program(ss)).1, t), OnDivisor);
            && (run.Ok? || run.error == DivideByZero)
            && (run.Ok? ==> run.value.storage.Keys == Assigned(ss))
  {
    var t := Analyze(NewAnalyzer(), Program(ss), Intended).value.analyzer.table;
    AcceptedProgramTable(ss);
    forall x | x in {} + Assigned(ss) ensures Lookup(t, x).Some? {
      FlatLookup(t, Assigned(ss), x);
    }
    InterpretFaultsOnlyOnDivision(t, {}, map[], ss);
    ExecuteInterpretsProgram(C.NewInterpreter(), ss, t, OnDivisor);
  }

  // ---------------------------------------------------------------------------
  // Concrete programs

  /** `x = (10 + 5 * 2) / 4; y = x + 10; z = y - y / 5;` */
  function SampleProgram(): seq<Node> {
    [ Assignment("x", BinaryOp(BinaryOp(Num(10.0), Add, BinaryOp(Num(5.0), Multiply, Num(2.0))), Divide, Num(4.0))),
      Assignment("y", BinaryOp(Var("x"), Add, Num(10.0))),
      Assignment("z", BinaryOp(Var("y"), Subtract, BinaryOp(Var("y"), Divide, Num(5.0)))) ]
  }

  /** The sample program stores x = 5, y = 15 and z = 12, under either
      division check, given a table in which the three names are visible. */
  lemma SampleProgramRuns(t: SymbolTable, check: DivisionCheck)
    requires t.Valid() && Lookup(t, "x").Some? && Lookup(t, "y").Some?
    ensures var code := C.GenerateInstructions(C.NewInterpreter(), Program(SampleProgram())).1;
            Execute(NewVm(code, t), check).Ok?
            && Execute(NewVm(code, t), check).value.storage == map["x" := 5.0, "y" := 15.0, "z" := 12.0]
  {
    var ss := SampleProgram();
    var s1 := map["x" := 5.0];
    var s2 := s1["y" := 15.0];
    var s3 := s2["z" := 12.0];
    assert Eval(t, map[], ss[0].value, check) == Ok(5.0);
    assert Eval(t, s1, ss[1].value, check) == Ok(15.0);
    assert Eval(t, s2, BinaryOp(Var("y"), Divide, Num(5.0)), check) == Ok(3.0);
    assert Eval(t, s2, ss[2].value, check) == Ok(12.0);
    assert ss[1..][1..][1..] == [];
    assert Interpret(t, s2, ss[1..][1..], check) == Ok(s3);
    assert Interpret(t, s1, ss[1..], check) == Ok(s3);
    assert Interpret(t, map[], ss, check) == Ok(s3);
    ExecuteInterpretsProgram(C.NewInterpreter(), ss, t, check);
    assert s3 == map["x" := 5.0, "y" := 15.0, "z" := 12.0];
  }

  /** `x = 0 / 5;` faults on the written machine, although its value is 0,
      which the corrected machine stores. */
  lemma ZeroDividendExample()
    ensures var code := C.GenerateInstructions(C.NewInterpreter(), Program([Assignment("x", BinaryOp(Num(0.0), Divide, Num(5.0)))])).1;
            && Execute(NewVm(code, NewTable()), OnDividend) == Err(DivideByZero)
            && Execute(NewVm(code, NewTable()), OnDivisor).Ok?
            && Execute(NewVm(code, NewTable()), OnDivisor).value.storage == map["x" := 0.0]
  {
    var ss := [Assignment("x", BinaryOp(Num(0.0), Divide, Num(5.0)))];
    ExecuteInterpretsProgram(C.NewInterpreter(), ss, NewTable(), OnDividend);
    ExecuteInterpretsProgram(C.NewInterpreter(), ss, NewTable(), OnDivisor);
    assert ss[1..] == [];
    assert Eval(NewTable(), map[], ss[0].value, OnDividend) == Err(DivideByZero);
    assert Eval(NewTable(), map[], ss[0].value, OnDivisor) == Ok(0.0);
  }

  /** `x = 1 / 0;` passes the written check (the source goes on to store
      an infinity); the corrected machine faults. */
  lemma ZeroDivisorExample()
    ensures var code := C.GenerateInstructions(C.NewInterpreter(), Program([Assignment("x", BinaryOp(Num(1.0), Divide, Num(0.0)))])).1;
            && Execute(NewVm(code, NewTable()), OnDividend) == Err(NonFiniteResult)
            && Execute(NewVm(code, NewTable()), OnDivisor) == Err(DivideByZero)
  {
    var ss := [Assignment("x", BinaryOp(Num(1.0), Divide, Num(0.0)))];
    ExecuteInterpretsProgram(C.NewInterpreter(), ss, NewTable(), OnDividend);
    ExecuteInterpretsProgram(C.NewInterpreter(), ss, NewTable(), OnDivisor);
    assert Eval(NewTable(), map[], ss[0].value, OnDividend) == Err(NonFiniteResult);
    assert Eval(NewTable(), map[], ss[0].value, OnDivisor) == Err(DivideByZero);
  }
}
