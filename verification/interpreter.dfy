/** The bytecode compiler of src/interpreter.rs: a post-order walk that
    appends one instruction per number, name, operation and assignment to
    the interpreter's buffer. The walk is modelled as written, threading
    the buffer (`Emit`), and compared with a compositional definition of
    each node's code (`Code`). */
module Codegen {
  import A = Ast
  import opened Seqs

  datatype Instruction =
    | LoadConstant(constant: real)
    | LoadVariable(name: string)
    | StoreVariable(name: string)
    | Add
    | Subtract
    | Divide
    | Multiply
    | Stop

  /** The interpreter's state: the buffer of emitted instructions. */
  datatype Interpreter = Interpreter(instructions: seq<Instruction>)

  predicate IsArithmetic(i: Instruction) {
    i.Add? || i.Subtract? || i.Multiply? || i.Divide?
  }

  /** `binary_op_to_instruction` */
  function OperatorInstruction(op: A.BinaryOperator): (i: Instruction)
    ensures IsArithmetic(i)
  {
    match op
    case Add => Add
    case Subtract => Subtract
    case Multiply => Multiply
    case Divide => Divide
  }

  /** The operator an arithmetic instruction performs. */
  function InstructionOperator(i: Instruction): (op: A.BinaryOperator)
    requires IsArithmetic(i)
  {
    match i
    case Add => A.Add
    case Subtract => A.Subtract
    case Multiply => A.BinaryOperator.Multiply
    case Divide => A.BinaryOperator.Divide
  }

  /** `Interpreter::new` */
  function NewInterpreter(): (it: Interpreter)
    ensures it.instructions == []
  {
    Interpreter([])
  }

  /** `visit_node`: append the node's instructions to `buffer`, operands
      before their operator and a value before its store. The buffer is
      only ever extended, and no `Stop` is emitted. */
  function Emit(buffer: seq<Instruction>, n: A.Node): (r: seq<Instruction>)
    ensures buffer <= r
    ensures Stop !in buffer ==> Stop !in r
    decreases n, 1
  {
    match n
    case Number(x) => buffer + [LoadConstant(x)]
    case Identifier(x) => buffer + [LoadVariable(x)]
    case BinaryOp(left, op, right) => Emit(Emit(buffer, left), right) + [OperatorInstruction(op)]
    case Assignment(variable, value) => Emit(buffer, value) + [StoreVariable(variable)]
    case Program(statements) => EmitAll(buffer, statements)
  }

  /** The statement loop of the `Program` case. */
  function EmitAll(buffer: seq<Instruction>, ss: seq<A.Node>): (r: seq<Instruction>)
    ensures buffer <= r
    ensures Stop !in buffer ==> Stop !in r
    decreases ss, 0
  {
    if |ss| == 0 then buffer else EmitAll(Emit(buffer, ss[0]), ss[1..])
  }

  /** `generate_instructions`: clear the buffer, walk the program, append
      `Stop`, and return a copy of the buffer. The result ends in its only
      `Stop`. */
  function GenerateInstructions(it: Interpreter, program: A.Node): (r: (Interpreter, seq<Instruction>))
    ensures r.1 == r.0.instructions
    ensures |r.1| > 0 && r.1[|r.1| - 1] == Stop
    ensures Stop !in r.1[..|r.1| - 1]
  {
    var code := Emit([], program) + [Stop];
    assert code[..|code| - 1] == Emit([], program);
    (Interpreter(code), code)
  }

  // ---------------------------------------------------------------------------
  // The code of a node, compositionally

  /** A node's code: numbers and names load, an operation is its operands'
      code then its instruction, an assignment is its value's code then a
      store, and a program is its statements' code back to back. */
  function Code(n: A.Node): seq<Instruction>
    decreases n, 1
  {
    match n
    case Number(x) => [LoadConstant(x)]
    case Identifier(x) => [LoadVariable(x)]
    case BinaryOp(left, op, right) => Code(left) + Code(right) + [OperatorInstruction(op)]
    case Assignment(variable, value) => Code(value) + [StoreVariable(variable)]
    case Program(statements) => CodeAll(statements)
  }

  function CodeAll(ss: seq<A.Node>): seq<Instruction>
    decreases ss, 0
  {
    if |ss| == 0 then [] else Code(ss[0]) + CodeAll(ss[1..])
  }

  /** The names an instruction sequence stores to, in order. */
  function StoredNames(code: seq<Instruction>): seq<string> {
    if |code| == 0 then []
    else (if code[0].StoreVariable? then [code[0].name] else []) + StoredNames(code[1..])
  }

  /** The variables a tree assigns, in the order the walk reaches their
      assignments (after the assigned value). */
  function AssignedInOrder(n: A.Node): seq<string>
    decreases n, 1
  {
    match n
    case Number(_) => []
    case Identifier(_) => []
    case BinaryOp(left, _, right) => AssignedInOrder(left) + AssignedInOrder(right)
    case Assignment(variable, value) => AssignedInOrder(value) + [variable]
    case Program(statements) => AssignedInOrderAll(statements)
  }

  function AssignedInOrderAll(ss: seq<A.Node>): seq<string>
    decreases ss, 0
  {
    if |ss| == 0 then [] else AssignedInOrder(ss[0]) + AssignedInOrderAll(ss[1..])
  }

  // ---------------------------------------------------------------------------
  // Properties

  /** The walk appends exactly the node's code to whatever the buffer held. */
  lemma {:induction false} EmitAppendsCode(buffer: seq<Instruction>, n: A.Node)
    ensures Emit(buffer, n) == buffer + Code(n)
    decreases n, 1
  {
    match n
    case Number(_) =>
    case Identifier(_) =>
    case BinaryOp(left, op, right) =>
      EmitAppendsCode(buffer, left);
      EmitAppendsCode(buffer + Code(left), right);
      AppendAssociates(buffer, Code(left), Code(right));
      AppendAssociates(buffer, Code(left) + Code(right), [OperatorInstruction(op)]);
    case Assignment(_, value) =>
      EmitAppendsCode(buffer, value);
      AppendAssociates(buffer, Code(value), [StoreVariable(n.variable)]);
    case Program(statements) =>
      EmitAllAppendsCode(buffer, statements);
  }

  lemma {:induction false} EmitAllAppendsCode(buffer: seq<Instruction>, ss: seq<A.Node>)
    ensures EmitAll(buffer, ss) == buffer + CodeAll(ss)
    decreases ss, 0
  {
    if |ss| == 0 {
      assert buffer + [] == buffer;
    } else {
      EmitAppendsCode(buffer, ss[0]);
      EmitAllAppendsCode(buffer + Code(ss[0]), ss[1..]);
      AppendAssociates(buffer, Code(ss[0]), CodeAll(ss[1..]));
    }
  }

  /** What `generate_instructions` returns: the program's code and `Stop`,
      whatever the buffer held before, so repeated calls agree. */
  lemma GenerateInstructionsIsCode(it: Interpreter, program: A.Node)
    ensures GenerateInstructions(it, program).1 == Code(program) + [Stop]
    ensures GenerateInstructions(it, program) == GenerateInstructions(NewInterpreter(), program)
  {
    EmitAppendsCode([], program);
  }

  lemma {:induction false} StoredNamesAppend(a: seq<Instruction>, b: seq<Instruction>)
    ensures StoredNames(a + b) == StoredNames(a) + StoredNames(b)
    decreases |a|
  {
    if |a| > 0 {
      assert (a + b)[1..] == a[1..] + b;
      StoredNamesAppend(a[1..], b);
      var head := if a[0].StoreVariable? then [a[0].name] else [];
      AppendAssociates(head, StoredNames(a[1..]), StoredNames(b));
    } else {
      assert a + b == b;
    }
  }

  /** The code stores to the assigned variables, one `StoreVariable` per
      `Assignment`, in the order of the assignments. */
  lemma {:induction false} CodeStoresAssigned(n: A.Node)
    ensures StoredNames(Code(n)) == AssignedInOrder(n)
    decreases n, 1
  {
    match n
    case Number(_) =>
    case Identifier(_) =>
    case BinaryOp(left, op, right) =>
      CodeStoresAssigned(left);
      CodeStoresAssigned(right);
      StoredNamesAppend(Code(left) + Code(right), [OperatorInstruction(op)]);
      StoredNamesAppend(Code(left), Code(right));
      assert StoredNames([OperatorInstruction(op)]) == [];
    case Assignment(variable, value) =>
      CodeStoresAssigned(value);
      StoredNamesAppend(Code(value), [StoreVariable(variable)]);
      assert StoredNames([StoreVariable(variable)]) == [variable];
    case Program(statements) =>
      CodeAllStoresAssigned(statements);
  }

  lemma {:induction false} CodeAllStoresAssigned(ss: seq<A.Node>)
    ensures StoredNames(CodeAll(ss)) == AssignedInOrderAll(ss)
    decreases ss, 0
  {
    if |ss| > 0 {
      CodeStoresAssigned(ss[0]);
      CodeAllStoresAssigned(ss[1..]);
      StoredNamesAppend(Code(ss[0]), CodeAll(ss[1..]));
    }
  }

  /** `binary_op_to_instruction` is one-to-one, with `InstructionOperator`
      as its inverse. */
  lemma OperatorInstructionIsInvertible(op: A.BinaryOperator, i: Instruction)
    ensures InstructionOperator(OperatorInstruction(op)) == op
    ensures IsArithmetic(i) ==> OperatorInstruction(InstructionOperator(i)) == i
  {
  }

  /** An expression's code is exactly one instruction per leaf and per
      operation, and stores nothing. */
  lemma {:induction false} ExpressionCodeStoresNothing(e: A.Node)
    requires A.IsExpression(e)
    ensures AssignedInOrder(e) == []
    ensures forall i :: 0 <= i < |Code(e)| ==> !Code(e)[i].StoreVariable? && Code(e)[i] != Stop
    decreases e
  {
    match e
    case Number(_) =>
    case Identifier(_) =>
    case BinaryOp(left, op, right) =>
      ExpressionCodeStoresNothing(left);
      ExpressionCodeStoresNothing(right);
  }
}
