/** What compiled code computes: a tree-walking evaluator for expressions
    and statements, and the theorem that the stack machine running the
    compiler's output agrees with it, value for value and fault for
    fault. */
module CompilerCorrectness {
  import opened Wrappers
  import opened Ast
  import opened SymbolTables
  import C = Codegen
  import opened Machine

  /** The names an expression reads are visible in the table and stored. */
  predicate Readable(t: SymbolTable, storage: map<string, real>, names: set<string>)
    requires t.Valid()
  {
    forall x :: x in names ==> Lookup(t, x).Some? && x in storage
  }

  /** The value of an expression, left operand first, with the faults of
      the machine: a name not visible or not stored, and the division
      rule of `check`. With every name readable, only a division faults. */
  function Eval(t: SymbolTable, storage: map<string, real>, e: Node, check: DivisionCheck): (r: Result<real, VmFault>)
    requires t.Valid() && IsExpression(e)
    ensures r.Ok? ==> Readable(t, storage, Vars(e))
    ensures Readable(t, storage, Vars(e)) && r.Err? ==> r.error == DivideByZero || r.error == NonFiniteResult
    ensures Readable(t, storage, Vars(e)) && check.OnDivisor? && r.Err? ==> r.error == DivideByZero
    decreases e
  {
    match e
    case Number(x) => Ok(x)
    case Identifier(x) =>
      if Lookup(t, x).None? then Err(NotInScope(x))
      else if x !in storage then Err(NotStored(x))
      else Ok(storage[x])
    case BinaryOp(l, op, r) =>
      match Eval(t, storage, l, check)
      case Err(f) => Err(f)
      case Ok(lv) =>
        match Eval(t, storage, r, check)
        case Err(f) => Err(f)
        case Ok(rv) => Arithmetic(C.OperatorInstruction(op), lv, rv, check)
  }

  /** The store after a run of assignments, each evaluated in the store
      its predecessors left; the first fault ends the run. */
  function Interpret(t: SymbolTable, storage: map<string, real>, ss: seq<Node>, check: DivisionCheck): (r: Result<map<string, real>, VmFault>)
    requires t.Valid() && Statements(ss)
    decreases |ss|
  {
    if |ss| == 0 then Ok(storage)
    else
      match Eval(t, storage, ss[0].value, check)
      case Err(f) => Err(f)
      case Ok(v) => Interpret(t, storage[ss[0].variable := v], ss[1..], check)
  }

  function Pushed(r: Result<real, VmFault>, f: Frame): Result<Frame, VmFault> {
    match r
    case Ok(v) => Ok(Frame(f.stack + [v], f.storage))
    case Err(e) => Err(e)
  }

  function Stored(r: Result<map<string, real>, VmFault>, stack: seq<real>): Result<Frame, VmFault> {
    match r
    case Ok(storage) => Ok(Frame(stack, storage))
    case Err(e) => Err(e)
  }

  // ---------------------------------------------------------------------------
  // Expressions

  /** The machine, running an operation's instruction on a stack that ends
      with the two operand values, combines them as the evaluator does. */
  lemma OperationStep(op: BinaryOperator, t: SymbolTable, f: Frame, lv: real, rv: real, check: DivisionCheck)
    requires t.Valid()
    ensures Step(C.OperatorInstruction(op), t, Frame(f.stack + [lv] + [rv], f.storage), check)
         == Pushed(Arithmetic(C.OperatorInstruction(op), lv, rv, check), f)
  {
    var s := f.stack + [lv] + [rv];
    ArithmeticStep(C.OperatorInstruction(op), t, Frame(s, f.storage), check);
    assert s[|s| - 2] == lv && s[|s| - 1] == rv && s[..|s| - 2] == f.stack;
  }

  /** Running an expression's code pushes its value onto whatever stack
      the machine holds, or stops with the evaluator's fault. */
  lemma {:induction false} CodeComputesEval(e: Node, t: SymbolTable, f: Frame, check: DivisionCheck)
    requires t.Valid() && IsExpression(e)
    ensures Exec(C.Code(e), t, f, check) == Pushed(Eval(t, f.storage, e, check), f)
    decreases e
  {
    match e
    case Number(_) =>
    case Identifier(x) =>
      LoadVariableStep(x, t, f, check);
    case BinaryOp(l, op, r) =>
      var i := C.OperatorInstruction(op);
      ExecAppend(C.Code(l) + C.Code(r), [i], t, f, check);
      ExecAppend(C.Code(l), C.Code(r), t, f, check);
      CodeComputesEval(l, t, f, check);
      match Eval(t, f.storage, l, check) {
        case Err(_) =>
        case Ok(lv) =>
          var f1 := Frame(f.stack + [lv], f.storage);
          CodeComputesEval(r, t, f1, check);
          match Eval(t, f.storage, r, check) {
            case Err(_) =>
            case Ok(rv) =>
              var f2 := Frame(f.stack + [lv] + [rv], f.storage);
              assert Exec(C.Code(l) + C.Code(r), t, f, check) == Ok(f2);
              OperationStep(op, t, f, lv, rv, check);
              assert Exec([i], t, f2, check) == Step(i, t, f2, check);
          }
      }
  }

  // ---------------------------------------------------------------------------
  // Statements and programs

  /** An assignment's code stores the value of its expression and leaves
      the stack as it found it. */
  lemma AssignmentCodeStores(s: Node, t: SymbolTable, f: Frame, check: DivisionCheck)
    requires t.Valid() && IsStatement(s)
    ensures Exec(C.Code(s), t, f, check) ==
              match Eval(t, f.storage, s.value, check)
              case Ok(v) => Ok(Frame(f.stack, f.storage[s.variable := v]))
              case Err(e) => Err(e)
  {
    ExecAppend(C.Code(s.value), [C.StoreVariable(s.variable)], t, f, check);
    CodeComputesEval(s.value, t, f, check);
    match Eval(t, f.storage, s.value, check) {
      case Err(_) =>
      case Ok(v) =>
        var pushed := f.stack + [v];
        assert pushed[..|pushed| - 1] == f.stack && pushed[|pushed| - 1] == v;
    }
  }

  /** A program's code runs its assignments in order: the machine ends
      with the stack it started with and the evaluator's store, or with
      the evaluator's fault. */
  lemma {:induction false} ProgramCodeInterprets(ss: seq<Node>, t: SymbolTable, f: Frame, check: DivisionCheck)
    requires t.Valid() && Statements(ss)
    ensures Exec(C.CodeAll(ss), t, f, check) == Stored(Interpret(t, f.storage, ss, check), f.stack)
    decreases |ss|
  {
    if |ss| > 0 {
      ExecAppend(C.Code(ss[0]), C.CodeAll(ss[1..]), t, f, check);
      AssignmentCodeStores(ss[0], t, f, check);
      match Eval(t, f.storage, ss[0].value, check) {
        case Err(_) =>
        case Ok(v) =>
          ProgramCodeInterprets(ss[1..], t, Frame(f.stack, f.storage[ss[0].variable := v]), check);
      }
    }
  }

  /** The compiler-correctness theorem: `execute` on the instructions
      `generate_instructions` produces for a program returns the store the
      evaluator computes from an empty store, and faults exactly when the
      evaluator does, with the same fault. */
  lemma ExecuteInterpretsProgram(it: C.Interpreter, ss: seq<Node>, t: SymbolTable, check: DivisionCheck)
    requires t.Valid() && Statements(ss)
    ensures var code := C.GenerateInstructions(it, Program(ss)).1;
            FrameOf(Execute(NewVm(code, t), check)) == Stored(Interpret(t, map[], ss, check), [])
  {
    var code := C.GenerateInstructions(it, Program(ss)).1;
    C.GenerateInstructionsIsCode(it, Program(ss));
    assert code == C.CodeAll(ss) + [C.Stop];
    ExecuteIsExec(NewVm(code, t), check);
    ExecAppend(C.CodeAll(ss), [C.Stop], t, Frame([], map[]), check);
    ProgramCodeInterprets(ss, t, Frame([], map[]), check);
    match Interpret(t, map[], ss, check) {
      case Err(_) =>
      case Ok(st) =>
        StopIsNoOp(t, Frame([], st), check);
    }
  }
}
