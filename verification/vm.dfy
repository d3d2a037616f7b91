/** The stack machine of src/vm.rs. A run is a loop that evaluates the
    instruction under the program counter and then advances the counter by
    one, until it passes the last instruction; a panic ends the run with a
    fault. `f64` values are reals, so a quotient by zero, which the source
    computes as an infinity or NaN, is outside the model: the written
    machine reports it as `NonFiniteResult`.

    The source's zero check on `Divide` tests the dividend. The check is a
    parameter: `OnDividend` as written, `OnDivisor` as evidently intended. */
module Machine {
  import opened Wrappers
  import A = Ast
  import opened SymbolTables
  import opened Codegen

  datatype VmFault =
    | NotInScope(name: string)
    | NotStored(name: string)
    | EmptyStack(name: string)
    | TooFewOperands
    | DivideByZero
    | NonFiniteResult

  /** Which operand of `Divide` the zero check tests. */
  datatype DivisionCheck = OnDividend | OnDivisor

  /** The operand stack and the variable store. */
  datatype Frame = Frame(stack: seq<real>, storage: map<string, real>)

  datatype Vm = Vm(instructions: seq<Instruction>, table: SymbolTable, storage: map<string, real>, pc: nat, stack: seq<real>)

  /** `VM::new` */
  function NewVm(instructions: seq<Instruction>, table: SymbolTable): (vm: Vm)
    ensures vm.instructions == instructions && vm.table == table
    ensures vm.pc == 0 && vm.stack == [] && vm.storage == map[]
  {
    Vm(instructions, table, map[], 0, [])
  }

  /** The value of an operator on reals; `None` for a quotient by zero. */
  function Apply(op: A.BinaryOperator, lhs: real, rhs: real): Option<real> {
    match op
    case Add => Some(lhs + rhs)
    case Subtract => Some(lhs - rhs)
    case Multiply => Some(lhs * rhs)
    case Divide => if rhs == 0.0 then None else Some(lhs / rhs)
  }

  /** `pop_two`: the top of the stack (the right operand) and the value
      under it (the left operand), and the stack below both. */
  function PopTwo(stack: seq<real>): (r: Result<(real, real, seq<real>), VmFault>)
    ensures r.Ok? <==> |stack| >= 2
    ensures r.Ok? ==> stack == r.value.2 + [r.value.1, r.value.0]
    ensures r.Err? ==> r.error == TooFewOperands
  {
    if |stack| < 2 then Err(TooFewOperands)
    else Ok((stack[|stack| - 1], stack[|stack| - 2], stack[..|stack| - 2]))
  }

  /** The value an arithmetic instruction pushes for `lhs op rhs`. As
      written, `Divide` faults on a zero dividend, and a zero divisor gives
      a value the model does not hold; with the intended check it faults
      exactly on a zero divisor. */
  function Arithmetic(i: Instruction, lhs: real, rhs: real, check: DivisionCheck): (r: Result<real, VmFault>)
    requires IsArithmetic(i)
    ensures r.Err? <==> i.Divide? && (rhs == 0.0 || (check.OnDividend? && lhs == 0.0))
    ensures r.Err? && (check.OnDivisor? || lhs == 0.0) ==> r.error == DivideByZero
  {
    match i
    case Add => Ok(lhs + rhs)
    case Subtract => Ok(lhs - rhs)
    case Multiply => Ok(lhs * rhs)
    case Divide =>
      match check
      case OnDividend =>
        if lhs == 0.0 then Err(DivideByZero)
        else if rhs == 0.0 then Err(NonFiniteResult)
        else Ok(lhs / rhs)
      case OnDivisor =>
        if rhs == 0.0 then Err(DivideByZero) else Ok(lhs / rhs)
  }

  /** Whatever the check, a value pushed is the operator's value on the
      reals; with the intended check, the instruction faults exactly when
      the operator has no value. */
  lemma ArithmeticAgreesWithApply(i: Instruction, lhs: real, rhs: real, check: DivisionCheck)
    requires IsArithmetic(i)
    ensures Arithmetic(i, lhs, rhs, check).Ok? ==> Apply(InstructionOperator(i), lhs, rhs) == Some(Arithmetic(i, lhs, rhs, check).value)
    ensures check.OnDivisor? ==> (Arithmetic(i, lhs, rhs, check).Err? <==> Apply(InstructionOperator(i), lhs, rhs).None?)
  {
    if i.Add? {
    } else if i.Subtract? {
    } else if i.Multiply? {
    } else {
    }
  }

  /** How many values an instruction pops and pushes. */
  function Pops(i: Instruction): nat {
    if i.StoreVariable? then 1 else if IsArithmetic(i) then 2 else 0
  }

  function Pushes(i: Instruction): nat {
    if i.LoadConstant? || i.LoadVariable? || IsArithmetic(i) then 1 else 0
  }

  /** The body of `evaluate_next_instruction`: one instruction's effect. It
      pops `Pops(i)` values and pushes `Pushes(i)`, leaving the stack below
      untouched; only `StoreVariable` changes the store, and only at its
      name. */
  function Step(i: Instruction, table: SymbolTable, f: Frame, check: DivisionCheck): (r: Result<Frame, VmFault>)
    requires table.Valid()
    ensures r.Ok? ==> Pops(i) <= |f.stack| && |r.value.stack| == |f.stack| - Pops(i) + Pushes(i)
    ensures r.Ok? ==> r.value.stack[..|f.stack| - Pops(i)] == f.stack[..|f.stack| - Pops(i)]
    ensures r.Ok? && !i.StoreVariable? ==> r.value.storage == f.storage
    ensures r.Ok? && i.StoreVariable? ==> r.value.storage == f.storage[i.name := f.stack[|f.stack| - 1]]
    ensures r.Err? ==> i.LoadVariable? || i.StoreVariable? || IsArithmetic(i)
  {
    match i
    case LoadConstant(x) => Ok(Frame(f.stack + [x], f.storage))
    case LoadVariable(x) =>
      if Lookup(table, x).None? then Err(NotInScope(x))
      else if x !in f.storage then Err(NotStored(x))
      else Ok(Frame(f.stack + [f.storage[x]], f.storage))
    case StoreVariable(x) =>
      if |f.stack| == 0 then Err(EmptyStack(x))
      else Ok(Frame(f.stack[..|f.stack| - 1], f.storage[x := f.stack[|f.stack| - 1]]))
    case Stop => Ok(f)
    case _ =>
      match PopTwo(f.stack)
      case Err(e) => Err(e)
      case Ok((n1, n2, rest)) =>
        match Arithmetic(i, n2, n1, check)
        case Err(e) => Err(e)
        case Ok(v) => Ok(Frame(rest + [v], f.storage))
  }

  /** The frame a sequence of instructions leaves, run from its first to
      its last. */
  function Exec(code: seq<Instruction>, table: SymbolTable, f: Frame, check: DivisionCheck): (r: Result<Frame, VmFault>)
    requires table.Valid()
    decreases |code|
  {
    if |code| == 0 then Ok(f)
    else
      match Step(code[0], table, f, check)
      case Err(e) => Err(e)
      case Ok(f1) => Exec(code[1..], table, f1, check)
  }

  /** `evaluate_next_instruction`: the instruction under the program
      counter, if any, applied to the machine's stack and store. */
  function Evaluate(vm: Vm, check: DivisionCheck): (r: Result<Vm, VmFault>)
    requires vm.table.Valid()
    ensures r.Ok? ==> r.value.instructions == vm.instructions && r.value.table == vm.table && r.value.pc == vm.pc
    ensures vm.pc >= |vm.instructions| ==> r == Ok(vm)
  {
    if vm.pc < |vm.instructions| then
      match Step(vm.instructions[vm.pc], vm.table, Frame(vm.stack, vm.storage), check)
      case Err(e) => Err(e)
      case Ok(f) => Ok(vm.(stack := f.stack, storage := f.storage))
    else
      Ok(vm)
  }

  /** The loop of `execute`: evaluate, advance the counter by one, until
      the counter passes the last instruction. */
  function Run(vm: Vm, check: DivisionCheck): (r: Result<Vm, VmFault>)
    requires vm.table.Valid()
    ensures r.Ok? ==> r.value.instructions == vm.instructions && r.value.table == vm.table
    ensures r.Ok? && vm.pc <= |vm.instructions| ==> r.value.pc == |vm.instructions|
    decreases |vm.instructions| - vm.pc
  {
    if vm.pc < |vm.instructions| then
      match Evaluate(vm, check)
      case Err(e) => Err(e)
      case Ok(v) => Run(v.(pc := v.pc + 1), check)
    else
      Ok(vm)
  }

  /** `execute`: reset the store, the counter and the stack, then run; the
      store of the final machine is the result. */
  function Execute(vm: Vm, check: DivisionCheck): (r: Result<Vm, VmFault>)
    requires vm.table.Valid()
    ensures r.Ok? ==> r.value.instructions == vm.instructions && r.value.table == vm.table
    ensures r.Ok? ==> r.value.pc == |vm.instructions|
  {
    Run(vm.(storage := map[], pc := 0, stack := []), check)
  }

  // ---------------------------------------------------------------------------
  // Properties

  function FrameOf(r: Result<Vm, VmFault>): Result<Frame, VmFault> {
    match r
    case Ok(vm) => Ok(Frame(vm.stack, vm.storage))
    case Err(e) => Err(e)
  }

  /** The loop runs the instructions from the counter on, in order, each
      once: a run is the sequential composition of their steps. */
  lemma {:induction false} RunIsExec(vm: Vm, check: DivisionCheck)
    requires vm.table.Valid() && vm.pc <= |vm.instructions|
    ensures FrameOf(Run(vm, check)) == Exec(vm.instructions[vm.pc..], vm.table, Frame(vm.stack, vm.storage), check)
    decreases |vm.instructions| - vm.pc
  {
    if vm.pc < |vm.instructions| {
      var rest := vm.instructions[vm.pc..];
      assert rest[0] == vm.instructions[vm.pc] && rest[1..] == vm.instructions[vm.pc + 1..];
      match Evaluate(vm, check) {
        case Err(_) =>
        case Ok(v) =>
          RunIsExec(v.(pc := v.pc + 1), check);
      }
    }
  }

  /** Running two pieces of code back to back is running their
      concatenation. */
  lemma {:induction false} ExecAppend(a: seq<Instruction>, b: seq<Instruction>, table: SymbolTable, f: Frame, check: DivisionCheck)
    requires table.Valid()
    ensures Exec(a + b, table, f, check) ==
              match Exec(a, table, f, check)
              case Err(e) => Err(e)
              case Ok(f1) => Exec(b, table, f1, check)
    decreases |a|
  {
    if |a| == 0 {
      assert a + b == b;
    } else {
      assert (a + b)[0] == a[0] && (a + b)[1..] == a[1..] + b;
      match Step(a[0], table, f, check) {
        case Err(_) =>
        case Ok(f1) =>
          ExecAppend(a[1..], b, table, f1, check);
      }
    }
  }

  /** `Stop` does nothing. */
  lemma StopIsNoOp(table: SymbolTable, f: Frame, check: DivisionCheck)
    requires table.Valid()
    ensures Step(Stop, table, f, check) == Ok(f)
    ensures Exec([Stop], table, f, check) == Ok(f)
  {
  }

  /** `execute` depends only on the instructions and the table: it
      ignores the store, counter and stack left by an earlier call, so
      calling it again returns the same store. */
  lemma ExecuteIsRepeatable(vm: Vm, check: DivisionCheck)
    requires vm.table.Valid() && Execute(vm, check).Ok?
    ensures Execute(Execute(vm, check).value, check) == Execute(vm, check)
  {
    var after := Execute(vm, check).value;
    assert after.(storage := map[], pc := 0, stack := []) == vm.(storage := map[], pc := 0, stack := []);
  }

  /** `execute` is the run of all the instructions from an empty stack and
      store. */
  lemma ExecuteIsExec(vm: Vm, check: DivisionCheck)
    requires vm.table.Valid()
    ensures FrameOf(Execute(vm, check)) == Exec(vm.instructions, vm.table, Frame([], map[]), check)
  {
    var start := vm.(storage := map[], pc := 0, stack := []);
    RunIsExec(start, check);
    assert start.instructions[0..] == vm.instructions;
  }

  /** `LoadVariable` faults when the name is not visible in the table or
      has no stored value, and otherwise pushes the stored value. */
  lemma LoadVariableStep(x: string, table: SymbolTable, f: Frame, check: DivisionCheck)
    requires table.Valid()
    ensures Lookup(table, x).None? ==> Step(LoadVariable(x), table, f, check) == Err(NotInScope(x))
    ensures Lookup(table, x).Some? && x !in f.storage ==> Step(LoadVariable(x), table, f, check) == Err(NotStored(x))
    ensures Lookup(table, x).Some? && x in f.storage ==>
              Step(LoadVariable(x), table, f, check) == Ok(Frame(f.stack + [f.storage[x]], f.storage))
  {
  }

  /** An arithmetic instruction pops the right operand, then the left, and
      pushes their combination; it faults with fewer than two operands. */
  lemma ArithmeticStep(i: Instruction, table: SymbolTable, f: Frame, check: DivisionCheck)
    requires table.Valid() && IsArithmetic(i)
    ensures |f.stack| < 2 ==> Step(i, table, f, check) == Err(TooFewOperands)
    ensures |f.stack| >= 2 ==>
              var lhs, rhs, below := f.stack[|f.stack| - 2], f.stack[|f.stack| - 1], f.stack[..|f.stack| - 2];
              Step(i, table, f, check) ==
                match Arithmetic(i, lhs, rhs, check)
                case Ok(v) => Ok(Frame(below + [v], f.storage))
                case Err(e) => Err(e)
  {
  }

  /** As written, `Divide` faults on every zero dividend, although the
      quotient exists whenever the divisor is not zero. */
  lemma DividendCheckRejectsZeroDividend(rhs: real)
    ensures Arithmetic(Divide, 0.0, rhs, OnDividend) == Err(DivideByZero)
    ensures rhs != 0.0 ==> Apply(A.BinaryOperator.Divide, 0.0, rhs) == Some(0.0)
  {
  }

  /** As written, a zero divisor under a non-zero dividend passes the
      check; the source then pushes an infinity. */
  lemma DividendCheckPassesZeroDivisor(lhs: real)
    requires lhs != 0.0
    ensures Arithmetic(Divide, lhs, 0.0, OnDividend) == Err(NonFiniteResult)
  {
  }

  /** With the intended check, `Divide` faults exactly on a zero divisor
      and otherwise pushes the quotient. */
  lemma DivisorCheckIsExact(lhs: real, rhs: real)
    ensures Arithmetic(Divide, lhs, rhs, OnDivisor).Err? <==> rhs == 0.0
    ensures rhs != 0.0 ==> Arithmetic(Divide, lhs, rhs, OnDivisor) == Ok(lhs / rhs)
    ensures rhs == 0.0 ==> Arithmetic(Divide, lhs, rhs, OnDivisor) == Err(DivideByZero)
  {
  }
}
