/** The semantic analyzer of src/semantic_analyzer.rs: a walk over the tree
    that declares assigned variables in a symbol table and collects
    diagnostics.

    The source's `Assignment` case never visits the assigned value. The
    walk is modelled both as written (`AsWritten`) and as evidently intended
    (`Intended`: the value is visited first, so every name it reads is
    checked). The rest of the model uses the intended walk; both are
    characterised in analysis_properties.dfy. */
module SemanticAnalysis {
  import opened Wrappers
  import opened Ast
  import opened SymbolTables

  /** A diagnostic. The source attaches a message and a kind; the model
      keeps the kind with the names or subtrees the message reports. */
  datatype SemanticError =
    | UndefinedVariable(name: string)
    | DuplicateDeclaration(name: string)
    | TypeMismatch(left: Node, right: Node)

  /** The panic of the `Assignment` case: the value has no type. */
  datatype AnalysisFault = UntypableValue(variable: string, value: Node)

  datatype Analyzer = Analyzer(table: SymbolTable, errors: seq<SemanticError>)

  /** Which `Assignment` case the walk uses. */
  datatype Variant = AsWritten | Intended

  /** `SemanticAnalyzer::new` */
  function NewAnalyzer(): (a: Analyzer)
    ensures a.table == NewTable() && a.errors == []
  {
    Analyzer(NewTable(), [])
  }

  /** `get_expression_type`: numbers and operations are integers, a name
      has the type of its symbol, and anything else has no type. */
  function ExpressionType(t: SymbolTable, n: Node): (r: Option<Type>)
    requires t.Valid()
    ensures r.None? <==> !(n.Number? || n.BinaryOp? || (n.Identifier? && Lookup(t, n.name).Some?))
    ensures n.Identifier? && r.Some? ==> r.value == Lookup(t, n.name).value.symbolType
  {
    match n
    case Number(_) => Some(Integer)
    case Identifier(name) =>
      (match Lookup(t, name)
       case Some(symbol) => Some(symbol.symbolType)
       case None => None)
    case BinaryOp(_, _, _) => Some(Integer)
    case _ => None
  }

  /** `add_error` */
  function AddError(a: Analyzer, e: SemanticError): (r: Analyzer)
    ensures r.table == a.table && r.errors == a.errors + [e]
  {
    a.(errors := a.errors + [e])
  }

  /** `visit_node`: the table only grows by declarations at the current
      scope, and diagnostics are only ever appended. */
  function Visit(a: Analyzer, n: Node, v: Variant): (r: Result<Analyzer, AnalysisFault>)
    requires a.table.Valid()
    ensures r.Ok? ==> r.value.table.Valid() && r.value.table.current == a.table.current
    ensures r.Ok? ==> a.errors <= r.value.errors
    decreases n, 1
  {
    match n
    case Program(statements) => VisitAll(a, statements, v)
    case Assignment(variable, value) => VisitAssignment(a, variable, value, v)
    case BinaryOp(left, op, right) => VisitOperation(a, left, op, right, v)
    case Identifier(name) =>
      if Lookup(a.table, name).None? then Ok(AddError(a, UndefinedVariable(name))) else Ok(a)
    case Number(_) => Ok(a)
  }

  /** The `Assignment` case: declare the variable with the value's type. */
  function VisitAssignment(a: Analyzer, variable: string, value: Node, v: Variant): (r: Result<Analyzer, AnalysisFault>)
    requires a.table.Valid()
    ensures r.Ok? ==> r.value.table.Valid() && r.value.table.current == a.table.current
    ensures r.Ok? ==> a.errors <= r.value.errors
    decreases Assignment(variable, value), 0
  {
    var visited := if v.Intended? then Visit(a, value, v) else Ok(a);
    if visited.Err? then visited
    else
      var a1 := visited.value;
      match ExpressionType(a1.table, value)
      case None =>
        if v.AsWritten? then Err(UntypableValue(variable, value))
        else Ok(a1)
      case Some(ty) =>
        match Declare(a1.table, variable, ty)
        case Err(_) => Ok(AddError(a1, DuplicateDeclaration(variable)))
        case Ok(t) => Ok(a1.(table := t))
  }

  /** The `BinaryOp` case: visit both operands, then compare their types
      in the table as it stands after both visits. */
  function VisitOperation(a: Analyzer, left: Node, op: BinaryOperator, right: Node, v: Variant): (r: Result<Analyzer, AnalysisFault>)
    requires a.table.Valid()
    ensures r.Ok? ==> r.value.table.Valid() && r.value.table.current == a.table.current
    ensures r.Ok? ==> a.errors <= r.value.errors
    decreases BinaryOp(left, op, right), 0
  {
    match Visit(a, left, v)
    case Err(f) => Err(f)
    case Ok(a1) =>
      match Visit(a1, right, v)
      case Err(f) => Err(f)
      case Ok(a2) =>
        if ExpressionType(a2.table, left) != ExpressionType(a2.table, right) then
          Ok(AddError(a2, TypeMismatch(left, right)))
        else
          Ok(a2)
  }

  /** The statement loop of the `Program` case. */
  function VisitAll(a: Analyzer, ss: seq<Node>, v: Variant): (r: Result<Analyzer, AnalysisFault>)
    requires a.table.Valid()
    ensures r.Ok? ==> r.value.table.Valid() && r.value.table.current == a.table.current
    ensures r.Ok? ==> a.errors <= r.value.errors
    decreases ss, 0
  {
    if |ss| == 0 then Ok(a)
    else
      match Visit(a, ss[0], v)
      case Err(f) => Err(f)
      case Ok(a1) => VisitAll(a1, ss[1..], v)
  }

  /** The outcome of `analyze`: the analyzer afterwards, and `Ok` or the
      diagnostics taken out of it. */
  datatype Analysis = Analysis(analyzer: Analyzer, verdict: Result<(), seq<SemanticError>>)

  /** `analyze`: walk the tree; report `Ok` when no diagnostic was recorded,
      otherwise hand over every recorded diagnostic and leave the analyzer's
      list empty. */
  function Analyze(a: Analyzer, root: Node, v: Variant): (r: Result<Analysis, AnalysisFault>)
    requires a.table.Valid()
    ensures r.Err? <==> Visit(a, root, v).Err?
    ensures r.Ok? ==> r.value.analyzer.errors == [] && r.value.analyzer.table == Visit(a, root, v).value.table
    ensures r.Ok? ==> (r.value.verdict.Ok? <==> Visit(a, root, v).value.errors == [])
    ensures r.Ok? && r.value.verdict.Err? ==> r.value.verdict.error == Visit(a, root, v).value.errors
  {
    match Visit(a, root, v)
    case Err(f) => Err(f)
    case Ok(a1) =>
      if |a1.errors| == 0 then Ok(Analysis(a1, Ok(())))
      else Ok(Analysis(a1.(errors := []), Err(a1.errors)))
  }
}
