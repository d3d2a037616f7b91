/** What the semantic analysis of a program reports, stated over sets of
    declared names instead of symbol tables.

    A program produced by the parser is a `Program` of assignments of
    expressions, analysed from a fresh analyzer, so every declaration lands
    in the outermost scope and every symbol is an integer (a value's type is
    `Integer` or the type of a name, itself an integer). `Flat(t, D)` says a
    table is in that shape with the names `D` declared. */
module AnalysisProperties {
  import opened Wrappers
  import opened Seqs
  import opened Ast
  import opened SymbolTables
  import opened SemanticAnalysis

  ghost predicate Flat(t: SymbolTable, D: set<string>) {
    && t.Valid() && t.current == 0
    && t.scopes[0].Keys == D
    && (forall n :: n in t.scopes[0] ==> t.scopes[0][n].symbolType == Integer)
  }

  /** The variables the statements assign. */
  function Assigned(ss: seq<Node>): set<string>
    requires Statements(ss)
  {
    set i | 0 <= i < |ss| :: ss[i].variable
  }

  /** A value that is a bare name not yet declared: the value the source's
      `Assignment` case cannot type. */
  predicate UnboundValue(e: Node, D: set<string>) {
    e.Identifier? && e.name !in D
  }

  /** The type `get_expression_type` gives an expression over `D`. */
  function TypeIn(D: set<string>, e: Node): Option<Type> {
    if UnboundValue(e, D) then None else Some(Integer)
  }

  /** The diagnostics of visiting an expression with `D` declared: one
      `UndefinedVariable` per occurrence of an undeclared name, left to
      right, and a `TypeMismatch` after the operands of every operation
      whose operands type differently. */
  function ExprReports(D: set<string>, e: Node): seq<SemanticError>
    requires IsExpression(e)
    decreases e
  {
    match e
    case Number(_) => []
    case Identifier(name) => if name in D then [] else [UndefinedVariable(name)]
    case BinaryOp(l, _, r) =>
      ExprReports(D, l) + ExprReports(D, r)
        + if TypeIn(D, l) != TypeIn(D, r) then [TypeMismatch(l, r)] else []
  }

  /** The `DuplicateDeclaration`s of a run of statements with `D` declared
      before them, in statement order. */
  function DuplicateReports(D: set<string>, ss: seq<Node>): seq<SemanticError>
    requires Statements(ss)
    decreases |ss|
  {
    if |ss| == 0 then []
    else
      (if ss[0].variable in D then [DuplicateDeclaration(ss[0].variable)] else [])
        + DuplicateReports(D + {ss[0].variable}, ss[1..])
  }

  // ---------------------------------------------------------------------------
  // Flat tables

  lemma FlatLookup(t: SymbolTable, D: set<string>, name: string)
    requires Flat(t, D)
    ensures Lookup(t, name).Some? <==> name in D
    ensures Lookup(t, name).Some? ==> Lookup(t, name).value.symbolType == Integer
  {
  }

  lemma FlatExpressionType(t: SymbolTable, D: set<string>, e: Node)
    requires Flat(t, D) && IsExpression(e)
    ensures ExpressionType(t, e) == TypeIn(D, e)
  {
    if e.Identifier? {
      FlatLookup(t, D, e.name);
    }
  }

  lemma FlatDeclare(t: SymbolTable, D: set<string>, name: string)
    requires Flat(t, D)
    ensures Declare(t, name, Integer).Ok? <==> name !in D
    ensures Declare(t, name, Integer).Ok? ==> Flat(Declare(t, name, Integer).value, D + {name})
  {
  }

  // ---------------------------------------------------------------------------
  // Expressions and statements

  /** An expression's diagnostics are empty exactly when it reads only
      declared names. */
  lemma {:induction false} ExprReportsEmpty(D: set<string>, e: Node)
    requires IsExpression(e)
    ensures ExprReports(D, e) == [] <==> Vars(e) <= D
    decreases e
  {
    match e
    case Number(_) =>
    case Identifier(_) =>
    case BinaryOp(l, _, r) =>
      ExprReportsEmpty(D, l);
      ExprReportsEmpty(D, r);
  }

  /** Visiting an expression leaves a flat table as it is and appends the
      expression's diagnostics; both walks visit expressions alike. */
  lemma {:induction false} VisitExpression(t: SymbolTable, D: set<string>, errs: seq<SemanticError>, e: Node, v: Variant)
    requires Flat(t, D) && IsExpression(e)
    ensures Visit(Analyzer(t, errs), e, v) == Ok(Analyzer(t, errs + ExprReports(D, e)))
    decreases e
  {
    match e
    case Number(_) =>
      assert errs + [] == errs;
    case Identifier(name) =>
      FlatLookup(t, D, name);
      assert errs + [] == errs;
    case BinaryOp(l, op, r) =>
      VisitExpression(t, D, errs, l, v);
      VisitExpression(t, D, errs + ExprReports(D, l), r, v);
      FlatExpressionType(t, D, l);
      FlatExpressionType(t, D, r);
      OperationReports(t, D, errs, l, op, r, v);
  }

  /** The operation case of `VisitExpression`, given its operands' visits. */
  lemma OperationReports(t: SymbolTable, D: set<string>, errs: seq<SemanticError>, l: Node, op: BinaryOperator, r: Node, v: Variant)
    requires t.Valid() && IsExpression(l) && IsExpression(r)
    requires ExpressionType(t, l) == TypeIn(D, l) && ExpressionType(t, r) == TypeIn(D, r)
    requires Visit(Analyzer(t, errs), l, v) == Ok(Analyzer(t, errs + ExprReports(D, l)))
    requires Visit(Analyzer(t, errs + ExprReports(D, l)), r, v) == Ok(Analyzer(t, errs + ExprReports(D, l) + ExprReports(D, r)))
    ensures Visit(Analyzer(t, errs), BinaryOp(l, op, r), v) == Ok(Analyzer(t, errs + ExprReports(D, BinaryOp(l, op, r))))
  {
    var e2 := errs + ExprReports(D, l) + ExprReports(D, r);
    var tail := if TypeIn(D, l) != TypeIn(D, r) then [TypeMismatch(l, r)] else [];
    var mid := Analyzer(t, e2);
    var fin := if ExpressionType(mid.table, l) != ExpressionType(mid.table, r) then AddError(mid, TypeMismatch(l, r)) else mid;
    assert fin == Analyzer(t, e2 + tail);
    AppendAssociates4(errs, ExprReports(D, l), ExprReports(D, r), tail);
  }

  /** The written `Assignment` case: it faults on an undeclared bare name;
      otherwise it declares the variable, or reports it as a duplicate,
      and reports nothing about the value. */
  lemma VisitStatementAsWritten(t: SymbolTable, D: set<string>, errs: seq<SemanticError>, s: Node)
    requires Flat(t, D) && IsStatement(s)
    ensures Visit(Analyzer(t, errs), s, AsWritten).Err? <==> UnboundValue(s.value, D)
    ensures Visit(Analyzer(t, errs), s, AsWritten).Err? ==>
              Visit(Analyzer(t, errs), s, AsWritten).error == UntypableValue(s.variable, s.value)
    ensures Visit(Analyzer(t, errs), s, AsWritten).Ok? ==>
              var a := Visit(Analyzer(t, errs), s, AsWritten).value;
              && a.errors == errs + (if s.variable in D then [DuplicateDeclaration(s.variable)] else [])
              && Flat(a.table, D + {s.variable})
  {
    FlatExpressionType(t, D, s.value);
    FlatDeclare(t, D, s.variable);
    if s.variable in D {
      assert D + {s.variable} == D;
    } else {
      assert errs + [] == errs;
    }
  }

  /** The intended `Assignment` case: it never faults; it reports the
      value's diagnostics, then declares the variable or reports it as a
      duplicate, unless the value is an undeclared bare name (already
      reported), in which case nothing is declared. */
  lemma VisitStatementIntended(t: SymbolTable, D: set<string>, errs: seq<SemanticError>, s: Node)
    requires Flat(t, D) && IsStatement(s)
    ensures Visit(Analyzer(t, errs), s, Intended).Ok?
    ensures var a := Visit(Analyzer(t, errs), s, Intended).value;
            && a.errors == errs + ExprReports(D, s.value)
                 + (if !UnboundValue(s.value, D) && s.variable in D then [DuplicateDeclaration(s.variable)] else [])
            && Flat(a.table, if UnboundValue(s.value, D) then D else D + {s.variable})
  {
    VisitExpression(t, D, errs, s.value, Intended);
    FlatExpressionType(t, D, s.value);
    FlatDeclare(t, D, s.variable);
    var pre := errs + ExprReports(D, s.value);
    assert pre + [] == pre;
    if s.variable in D {
      assert D + {s.variable} == D;
    }
  }

  // ---------------------------------------------------------------------------
  // Runs of statements

  lemma AssignedStep(ss: seq<Node>, i: nat)
    requires Statements(ss) && i < |ss|
    ensures Statements(ss[..i + 1]) && Statements(ss[1..][..i])
    ensures Assigned(ss[..i + 1]) == {ss[0].variable} + Assigned(ss[1..][..i])
  {
    var a, b := ss[..i + 1], ss[1..][..i];
    assert forall k :: 0 <= k < i ==> b[k] == a[k + 1];
    forall x | x in Assigned(a) ensures x in {ss[0].variable} + Assigned(b) {
      var k :| 0 <= k < |a| && a[k].variable == x;
      if k > 0 {
        assert b[k - 1].variable == x;
      }
    }
  }

  /** The statement at `i` reads an undeclared bare name. */
  predicate FaultsAt(D: set<string>, ss: seq<Node>, i: nat)
    requires Statements(ss) && i < |ss|
  {
    UnboundValue(ss[i].value, D + Assigned(ss[..i]))
  }

  /** The statement at `i` reads only declared names and assigns a fresh one. */
  predicate CleanAt(D: set<string>, ss: seq<Node>, i: nat)
    requires Statements(ss) && i < |ss|
  {
    Vars(ss[i].value) <= D + Assigned(ss[..i]) && ss[i].variable !in D + Assigned(ss[..i])
  }

  predicate Faults(D: set<string>, ss: seq<Node>)
    requires Statements(ss)
  {
    exists i :: 0 <= i < |ss| && FaultsAt(D, ss, i)
  }

  predicate Clean(D: set<string>, ss: seq<Node>)
    requires Statements(ss)
  {
    forall i :: 0 <= i < |ss| ==> CleanAt(D, ss, i)
  }

  lemma AtStep(D: set<string>, ss: seq<Node>, i: nat)
    requires Statements(ss) && 0 < i < |ss|
    ensures FaultsAt(D, ss, i) <==> FaultsAt(D + {ss[0].variable}, ss[1..], i - 1)
    ensures CleanAt(D, ss, i) <==> CleanAt(D + {ss[0].variable}, ss[1..], i - 1)
  {
    AssignedStep(ss, i - 1);
    assert D + Assigned(ss[..i]) == D + {ss[0].variable} + Assigned(ss[1..][..i - 1]);
  }

  lemma FaultsStep(D: set<string>, ss: seq<Node>)
    requires Statements(ss) && |ss| > 0
    ensures Faults(D, ss) <==> UnboundValue(ss[0].value, D) || Faults(D + {ss[0].variable}, ss[1..])
  {
    assert ss[..0] == [];
    assert D + Assigned(ss[..0]) == D;
    assert FaultsAt(D, ss, 0) == UnboundValue(ss[0].value, D);
    if Faults(D, ss) && !UnboundValue(ss[0].value, D) {
      var i :| 0 <= i < |ss| && FaultsAt(D, ss, i);
      AtStep(D, ss, i);
      assert FaultsAt(D + {ss[0].variable}, ss[1..], i - 1);
    }
    if Faults(D + {ss[0].variable}, ss[1..]) {
      var i :| 0 <= i < |ss| - 1 && FaultsAt(D + {ss[0].variable}, ss[1..], i);
      AtStep(D, ss, i + 1);
      assert FaultsAt(D, ss, i + 1);
    }
  }

  lemma CleanStep(D: set<string>, ss: seq<Node>)
    requires Statements(ss) && |ss| > 0
    ensures Clean(D, ss) <==>
              Vars(ss[0].value) <= D && ss[0].variable !in D && Clean(D + {ss[0].variable}, ss[1..])
  {
    assert ss[..0] == [];
    assert D + Assigned(ss[..0]) == D;
    assert CleanAt(D, ss, 0) <==> Vars(ss[0].value) <= D && ss[0].variable !in D;
    forall i | 0 < i < |ss| ensures CleanAt(D, ss, i) <==> CleanAt(D + {ss[0].variable}, ss[1..], i - 1) {
      AtStep(D, ss, i);
    }
    if !Clean(D + {ss[0].variable}, ss[1..]) {
      var i :| 0 <= i < |ss| - 1 && !CleanAt(D + {ss[0].variable}, ss[1..], i);
      assert !CleanAt(D, ss, i + 1);
    }
    if Clean(D + {ss[0].variable}, ss[1..]) && Vars(ss[0].value) <= D && ss[0].variable !in D {
      forall i | 0 <= i < |ss| ensures CleanAt(D, ss, i) {
        if i > 0 {
          assert CleanAt(D + {ss[0].variable}, ss[1..], i - 1);
        }
      }
    }
  }

  /** The duplicate reports are empty exactly when every statement assigns
      a fresh name. */
  lemma {:induction false} DuplicateReportsEmpty(D: set<string>, ss: seq<Node>)
    requires Statements(ss)
    ensures DuplicateReports(D, ss) == [] <==> forall i :: 0 <= i < |ss| ==> ss[i].variable !in D + Assigned(ss[..i])
    decreases |ss|
  {
    if |ss| > 0 {
      var D' := D + {ss[0].variable};
      DuplicateReportsEmpty(D', ss[1..]);
      assert ss[..0] == [];
      assert D + Assigned(ss[..0]) == D;
      forall i | 0 < i < |ss|
        ensures (ss[i].variable !in D + Assigned(ss[..i])) <==> (ss[1..][i - 1].variable !in D' + Assigned(ss[1..][..i - 1]))
      {
        AssignedStep(ss, i - 1);
        assert D + Assigned(ss[..i]) == D' + Assigned(ss[1..][..i - 1]);
      }
      if forall i :: 0 <= i < |ss| ==> ss[i].variable !in D + Assigned(ss[..i]) {
        assert ss[0].variable !in D;
        forall i | 0 <= i < |ss| - 1 ensures ss[1..][i].variable !in D' + Assigned(ss[1..][..i]) {
          assert ss[i + 1].variable !in D + Assigned(ss[..i + 1]);
        }
      }
    }
  }

  /** The written walk over statements: it faults exactly when some
      statement's value is a bare name not declared before it; otherwise
      it reports exactly the duplicate declarations. */
  lemma {:induction false} VisitAllAsWritten(t: SymbolTable, D: set<string>, errs: seq<SemanticError>, ss: seq<Node>)
    requires Flat(t, D) && Statements(ss)
    ensures VisitAll(Analyzer(t, errs), ss, AsWritten).Err? <==> Faults(D, ss)
    ensures VisitAll(Analyzer(t, errs), ss, AsWritten).Ok? ==>
              VisitAll(Analyzer(t, errs), ss, AsWritten).value.errors == errs + DuplicateReports(D, ss)
    decreases |ss|
  {
    if |ss| == 0 {
      assert errs + [] == errs;
    } else {
      var s := ss[0];
      VisitStatementAsWritten(t, D, errs, s);
      FaultsStep(D, ss);
      var first := Visit(Analyzer(t, errs), s, AsWritten);
      if first.Ok? {
        var a := first.value;
        VisitAllAsWritten(a.table, D + {s.variable}, a.errors, ss[1..]);
        var dup := if s.variable in D then [DuplicateDeclaration(s.variable)] else [];
        AppendAssociates(errs, dup, DuplicateReports(D + {s.variable}, ss[1..]));
      }
    }
  }

  /** The intended walk over statements never faults, and reports nothing
      exactly when every statement reads only names declared before it and
      assigns a fresh one. */
  lemma {:induction false} VisitAllIntended(t: SymbolTable, D: set<string>, errs: seq<SemanticError>, ss: seq<Node>)
    requires Flat(t, D) && Statements(ss)
    ensures VisitAll(Analyzer(t, errs), ss, Intended).Ok?
    ensures VisitAll(Analyzer(t, errs), ss, Intended).value.errors == errs <==> Clean(D, ss)
    ensures Clean(D, ss) ==> Flat(VisitAll(Analyzer(t, errs), ss, Intended).value.table, D + Assigned(ss))
    decreases |ss|
  {
    if |ss| == 0 {
      assert D + Assigned(ss) == D;
    } else {
      var s := ss[0];
      VisitStatementIntended(t, D, errs, s);
      CleanStep(D, ss);
      ExprReportsEmpty(D, s.value);
      var a := Visit(Analyzer(t, errs), s, Intended).value;
      var D' := if UnboundValue(s.value, D) then D else D + {s.variable};
      VisitAllIntended(a.table, D', a.errors, ss[1..]);
      var r := VisitAll(a, ss[1..], Intended).value;
      if a.errors == errs {
        assert Vars(s.value) <= D;
        assert s.variable !in D;
        AssignedStep(ss, |ss| - 1);
        assert ss[..|ss|] == ss && ss[1..][..|ss| - 1] == ss[1..];
        assert D' + Assigned(ss[1..]) == D + Assigned(ss);
      } else {
        assert |a.errors| > |errs|;
        assert |r.errors| >= |a.errors|;
      }
    }
  }

  // ---------------------------------------------------------------------------
  // Whole programs

  lemma NewTableIsFlat()
    ensures Flat(NewTable(), {})
  {
  }

  /** `analyze` of a program as written: a fault exactly when a value is a
      bare name not assigned before it; otherwise `Ok` exactly when no
      variable is assigned twice. Names read inside operations are never
      checked. */
  lemma AnalyzeAsWritten(ss: seq<Node>)
    requires Statements(ss)
    ensures Analyze(NewAnalyzer(), Program(ss), AsWritten).Err? <==>
              exists i :: 0 <= i < |ss| && UnboundValue(ss[i].value, Assigned(ss[..i]))
    ensures Analyze(NewAnalyzer(), Program(ss), AsWritten).Ok? ==>
              (Analyze(NewAnalyzer(), Program(ss), AsWritten).value.verdict.Ok? <==>
                 forall i :: 0 <= i < |ss| ==> ss[i].variable !in Assigned(ss[..i]))
  {
    NewTableIsFlat();
    VisitAllAsWritten(NewTable(), {}, [], ss);
    DuplicateReportsEmpty({}, ss);
    assert Visit(NewAnalyzer(), Program(ss), AsWritten) == VisitAll(Analyzer(NewTable(), []), ss, AsWritten);
    forall i | 0 <= i < |ss| ensures {} + Assigned(ss[..i]) == Assigned(ss[..i]) {
    }
    if Faults({}, ss) {
      var i :| 0 <= i < |ss| && FaultsAt({}, ss, i);
      assert UnboundValue(ss[i].value, Assigned(ss[..i]));
    }
    if exists i :: 0 <= i < |ss| && UnboundValue(ss[i].value, Assigned(ss[..i])) {
      var i :| 0 <= i < |ss| && UnboundValue(ss[i].value, Assigned(ss[..i]));
      assert FaultsAt({}, ss, i);
    }
  }

  /** `analyze` of a program as intended: it never faults, and succeeds
      exactly when every statement reads only variables assigned before it
      and assigns a variable not assigned before. */
  lemma AnalyzeIntended(ss: seq<Node>)
    requires Statements(ss)
    ensures Analyze(NewAnalyzer(), Program(ss), Intended).Ok?
    ensures Analyze(NewAnalyzer(), Program(ss), Intended).value.verdict.Ok? <==>
              forall i :: 0 <= i < |ss| ==> Vars(ss[i].value) <= Assigned(ss[..i]) && ss[i].variable !in Assigned(ss[..i])
  {
    NewTableIsFlat();
    VisitAllIntended(NewTable(), {}, [], ss);
    assert Visit(NewAnalyzer(), Program(ss), Intended) == VisitAll(Analyzer(NewTable(), []), ss, Intended);
    forall i | 0 <= i < |ss| ensures CleanAt({}, ss, i) <==> Vars(ss[i].value) <= Assigned(ss[..i]) && ss[i].variable !in Assigned(ss[..i]) {
      assert {} + Assigned(ss[..i]) == Assigned(ss[..i]);
    }
  }

  // ---------------------------------------------------------------------------
  // Diagnostics accumulate

  function Prepend(e: seq<SemanticError>, r: Result<Analyzer, AnalysisFault>): Result<Analyzer, AnalysisFault> {
    match r
    case Ok(a) => Ok(a.(errors := e + a.errors))
    case Err(f) => Err(f)
  }

  /** A walk's diagnostics do not depend on those recorded before it, which
      stay in front: diagnostics are appended in traversal order and never
      merged with earlier ones. */
  lemma {:induction false} VisitPrepends(t: SymbolTable, e: seq<SemanticError>, n: Node, v: Variant)
    requires t.Valid()
    ensures Visit(Analyzer(t, e), n, v) == Prepend(e, Visit(Analyzer(t, []), n, v))
    decreases n
  {
    match n
    case Program(ss) =>
      VisitAllPrepends(t, e, ss, v);
    case Assignment(x, value) =>
      if v.Intended? {
        VisitPrepends(t, e, value, v);
      }
      assert e + [] == e;
      var pre := if v.Intended? then Visit(Analyzer(t, []), value, v) else Ok(Analyzer(t, []));
      if pre.Ok? {
        AppendAssociates(e, pre.value.errors, [DuplicateDeclaration(x)]);
      }
    case BinaryOp(l, _, r) =>
      VisitPrepends(t, e, l, v);
      match Visit(Analyzer(t, []), l, v) {
        case Err(_) =>
        case Ok(a1) =>
          VisitPrepends(a1.table, e + a1.errors, r, v);
          VisitPrepends(a1.table, a1.errors, r, v);
          match Visit(Analyzer(a1.table, []), r, v) {
            case Err(_) =>
            case Ok(a2) =>
              AppendAssociates(e, a1.errors, a2.errors);
              AppendAssociates(e, a1.errors + a2.errors, [TypeMismatch(l, r)]);
          }
      }
    case Identifier(name) =>
      assert e + [] == e;
      assert e + [UndefinedVariable(name)] == e + ([] + [UndefinedVariable(name)]);
    case Number(_) =>
      assert e + [] == e;
  }

  lemma {:induction false} VisitAllPrepends(t: SymbolTable, e: seq<SemanticError>, ss: seq<Node>, v: Variant)
    requires t.Valid()
    ensures VisitAll(Analyzer(t, e), ss, v) == Prepend(e, VisitAll(Analyzer(t, []), ss, v))
    decreases ss
  {
    if |ss| == 0 {
      assert e + [] == e;
    } else {
      VisitPrepends(t, e, ss[0], v);
      match Visit(Analyzer(t, []), ss[0], v) {
        case Err(_) =>
        case Ok(a1) =>
          VisitAllPrepends(a1.table, e + a1.errors, ss[1..], v);
          VisitAllPrepends(a1.table, a1.errors, ss[1..], v);
          match VisitAll(Analyzer(a1.table, []), ss[1..], v) {
            case Err(_) =>
            case Ok(a2) =>
              AppendAssociates(e, a1.errors, a2.errors);
          }
      }
    }
  }

  /** `analyze` hands over the diagnostics recorded before it followed by
      the walk's own, and leaves none behind, so a later call reports only
      its own findings. */
  lemma AnalyzeReportsEarlierThenOwn(a: Analyzer, root: Node, v: Variant)
    requires a.table.Valid() && Analyze(a, root, v).Ok?
    ensures Visit(Analyzer(a.table, []), root, v).Ok?
    ensures var own := Visit(Analyzer(a.table, []), root, v).value.errors;
            && Analyze(a, root, v).value.analyzer.errors == []
            && Analyze(a, root, v).value.verdict == if a.errors + own == [] then Ok(()) else Err(a.errors + own)
  {
    VisitPrepends(a.table, a.errors, root, v);
  }

  // ---------------------------------------------------------------------------
  // Concrete analyses

  /** A program whose only statement reads an undeclared name reports it. */
  lemma UndefinedVariableExample(v: Variant)
    ensures Analyze(NewAnalyzer(), Program([Identifier("some_var")]), v).Ok?
    ensures Analyze(NewAnalyzer(), Program([Identifier("some_var")]), v).value.verdict
         == Err([UndefinedVariable("some_var")])
  {
    var t := NewTable();
    var ss := [Identifier("some_var")];
    var a1 := Analyzer(t, [UndefinedVariable("some_var")]);
    assert Lookup(t, "some_var") == None;
    assert [] + [UndefinedVariable("some_var")] == [UndefinedVariable("some_var")];
    assert Visit(Analyzer(t, []), ss[0], v) == Ok(a1);
    assert VisitAll(a1, ss[1..], v) == Ok(a1);
    assert Visit(NewAnalyzer(), Program(ss), v) == Ok(a1);
  }

  /** Assigning `x` twice reports the second assignment. */
  lemma DuplicateDeclarationExample(v: Variant)
    ensures var p := Program([Assignment("x", Number(1.0)), Assignment("x", Number(2.0))]);
            && Analyze(NewAnalyzer(), p, v).Ok?
            && Analyze(NewAnalyzer(), p, v).value.verdict == Err([DuplicateDeclaration("x")])
  {
    var ss := [Assignment("x", Number(1.0)), Assignment("x", Number(2.0))];
    var t1 := Declare(NewTable(), "x", Integer).value;
    NewTableIsFlat();
    FlatDeclare(NewTable(), {}, "x");
    var a1 := Analyzer(t1, []);
    var a2 := Analyzer(t1, [DuplicateDeclaration("x")]);
    assert {} + {"x"} == {"x"};
    assert [] + [DuplicateDeclaration("x")] == [DuplicateDeclaration("x")];
    if v.AsWritten? {
      VisitStatementAsWritten(NewTable(), {}, [], ss[0]);
      VisitStatementAsWritten(t1, {"x"}, [], ss[1]);
    } else {
      VisitStatementIntended(NewTable(), {}, [], ss[0]);
      VisitStatementIntended(t1, {"x"}, [], ss[1]);
    }
    assert Visit(Analyzer(NewTable(), []), ss[0], v) == Ok(a1);
    assert Visit(a1, ss[1], v) == Ok(a2);
    assert ss[1..][1..] == [];
    assert VisitAll(a1, ss[1..], v) == Ok(a2);
    assert Visit(NewAnalyzer(), Program(ss), v) == Ok(a2);
  }

  /** With `x` an integer and `y` a function, `x + y` is a mismatch. */
  lemma TypeMismatchExample(v: Variant)
    ensures var t := Declare(Declare(NewTable(), "x", Integer).value, "y", Function).value;
            var n := BinaryOp(Identifier("x"), Add, Identifier("y"));
            && Analyze(Analyzer(t, []), n, v).Ok?
            && Analyze(Analyzer(t, []), n, v).value.verdict == Err([TypeMismatch(Identifier("x"), Identifier("y"))])
  {
    var t1 := Declare(NewTable(), "x", Integer).value;
    var t := Declare(t1, "y", Function).value;
    DeclareThenLookup(NewTable(), "x", Integer, "y");
    DeclareThenLookup(t1, "y", Function, "x");
    DeclareThenLookup(t1, "y", Function, "y");
    var a := Analyzer(t, []);
    var mismatch := [TypeMismatch(Identifier("x"), Identifier("y"))];
    assert [] + mismatch == mismatch;
    assert Visit(a, Identifier("x"), v) == Ok(a);
    assert Visit(a, Identifier("y"), v) == Ok(a);
    assert ExpressionType(t, Identifier("x")) == Some(Integer);
    assert ExpressionType(t, Identifier("y")) == Some(Function);
    assert VisitOperation(a, Identifier("x"), Add, Identifier("y"), v) == Ok(Analyzer(t, mismatch));
    assert Visit(a, BinaryOp(Identifier("x"), Add, Identifier("y")), v) == Ok(Analyzer(t, mismatch));
  }

  /** `x = y + 1;` with nothing declared: the written analysis accepts it,
      since the value is never visited; the intended one reports the
      undeclared `y`, and the mismatch of its missing type with `1`. */
  lemma UnvisitedValueExample()
    ensures var p := Program([Assignment("x", BinaryOp(Identifier("y"), Add, Number(1.0)))]);
            && Analyze(NewAnalyzer(), p, AsWritten) == Ok(Analysis(Analyzer(Declare(NewTable(), "x", Integer).value, []), Ok(())))
            && Analyze(NewAnalyzer(), p, Intended).Ok?
            && Analyze(NewAnalyzer(), p, Intended).value.verdict
               == Err([UndefinedVariable("y"), TypeMismatch(Identifier("y"), Number(1.0))])
  {
    var e := BinaryOp(Identifier("y"), Add, Number(1.0));
    var ss := [Assignment("x", e)];
    var t := NewTable();
    NewTableIsFlat();
    VisitStatementAsWritten(t, {}, [], ss[0]);
    VisitStatementIntended(t, {}, [], ss[0]);
    FlatDeclare(t, {}, "x");
    var t1 := Declare(t, "x", Integer).value;
    var reports := [UndefinedVariable("y"), TypeMismatch(Identifier("y"), Number(1.0))];
    assert TypeIn({}, Identifier("y")) == None;
    assert ExprReports({}, Identifier("y")) == [UndefinedVariable("y")];
    assert ExprReports({}, e) == [UndefinedVariable("y")] + [] + [TypeMismatch(Identifier("y"), Number(1.0))];
    assert ExprReports({}, e) == reports;
    assert [] + reports + [] == reports;
    var none: seq<SemanticError> := [];
    assert none + none == none;
    assert {} + {"x"} == {"x"};
    assert Visit(Analyzer(t, []), ss[0], AsWritten) == Ok(Analyzer(t1, []));
    assert Visit(Analyzer(t, []), ss[0], Intended) == Ok(Analyzer(t1, reports));
    assert ss[1..] == [];
    assert NewAnalyzer() == Analyzer(t, []);
    assert VisitAll(Analyzer(t1, []), ss[1..], AsWritten) == Ok(Analyzer(t1, []));
    assert VisitAll(Analyzer(t1, reports), ss[1..], Intended) == Ok(Analyzer(t1, reports));
    assert Visit(NewAnalyzer(), Program(ss), AsWritten) == Ok(Analyzer(t1, []));
    assert Visit(NewAnalyzer(), Program(ss), Intended) == Ok(Analyzer(t1, reports));
  }

  /** `x = y;` with nothing declared: the written analysis panics; the
      intended one reports `y` and declares nothing. */
  lemma UntypableValueExample()
    ensures Analyze(NewAnalyzer(), Program([Assignment("x", Identifier("y"))]), AsWritten)
         == Err(UntypableValue("x", Identifier("y")))
    ensures Analyze(NewAnalyzer(), Program([Assignment("x", Identifier("y"))]), Intended)
         == Ok(Analysis(NewAnalyzer(), Err([UndefinedVariable("y")])))
  {
    var ss := [Assignment("x", Identifier("y"))];
    var t := NewTable();
    NewTableIsFlat();
    VisitStatementAsWritten(t, {}, [], ss[0]);
    VisitStatementIntended(t, {}, [], ss[0]);
    var a1 := Analyzer(t, [UndefinedVariable("y")]);
    assert ExprReports({}, Identifier("y")) == [UndefinedVariable("y")];
    assert [] + [UndefinedVariable("y")] + [] == [UndefinedVariable("y")];
    assert Visit(Analyzer(t, []), ss[0], Intended) == Ok(a1);
    assert ss[1..] == [];
    assert Visit(NewAnalyzer(), Program(ss), Intended) == Ok(a1);
    assert Visit(NewAnalyzer(), Program(ss), AsWritten) == Err(UntypableValue("x", Identifier("y")));
  }

  /** Every occurrence of an undeclared name is reported, and two untyped
      operands are not a mismatch. */
  lemma RepeatedNameExample()
    ensures Analyze(NewAnalyzer(), BinaryOp(Identifier("y"), Add, Identifier("y")), Intended).Ok?
    ensures Analyze(NewAnalyzer(), BinaryOp(Identifier("y"), Add, Identifier("y")), Intended).value.verdict
         == Err([UndefinedVariable("y"), UndefinedVariable("y")])
  {
    var e := BinaryOp(Identifier("y"), Add, Identifier("y"));
    NewTableIsFlat();
    VisitExpression(NewTable(), {}, [], e, Intended);
    assert ExprReports({}, Identifier("y")) == [UndefinedVariable("y")];
    assert ExprReports({}, e) == [UndefinedVariable("y")] + [UndefinedVariable("y")] + [];
    assert [] + ExprReports({}, e) == [UndefinedVariable("y"), UndefinedVariable("y")];
  }
}
