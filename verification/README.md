# micro_lang in Dafny

A model of the compiler pipeline of micro_lang. micro_lang is a small language of assignments to arithmetic expressions, such as `x = (10 + 5 * 2) / 4; y = x + 10;`. The pipeline has five stages:

- the lexer turns source text into tokens;
- a recursive-descent parser builds an abstract syntax tree with two precedence tiers;
- a semantic analyzer walks the tree over a scoped symbol table and collects diagnostics;
- a bytecode compiler emits stack-machine instructions in post-order;
- a virtual machine runs those instructions against the analyzer's symbol table and returns the variable store.

Every stage is a pure function over immutable values. A stateful object of the source becomes a value that each operation returns, updated. A panic of the source becomes an `Err` result that names the fault. `f64` becomes `real`. Character classes are ASCII.

Files:

- `wrappers.dfy`: `Option` and `Result`.
- `seqs.dfy`: associativity of sequence concatenation, shared by the compiler and analyzer proofs.
- `lexing.dfy`: the lexer, and decimal conversion of numeric runs.
- `lexing_examples.dfy`: concrete lexer runs.
- `ast.dfy`: the tree, and the operator-token map.
- `parsing.dfy`: the parser, over a token sequence and an index.
- `parser_roundtrip.dfy`: a printer, and the theorem that parsing a printed program gives the program back.
- `parser_properties.dfy`: recovery behaviour, the statement loop's outcome, and concrete parses.
- `symbol_table.dfy`: the scoped symbol table.
- `semantic_analyzer.dfy`: the analyzer walk, as written and as intended (see Findings).
- `analysis_properties.dfy`: what the analyzer reports, characterised over all programs.
- `interpreter.dfy`: the bytecode compiler.
- `vm.dfy`: the stack machine. Division is checked as written (`OnDividend`) or as intended (`OnDivisor`).
- `compiler_correctness.dfy`: a tree-walking evaluator, and the theorem that compiled code computes what it computes.
- `pipeline.dfy`: the end-to-end theorem, and the sample programs.

The VM's division check at src/vm.rs:76-80 tests the left operand, the dividend, where the divisor is what it should test. The model follows the code as written, and Findings records the difference.

## Model

| member | source | states |
|---|---|---|
| Lexing.New | src/lexer.rs:23-32 | A fresh lexer is a valid cursor at position 0 whose current character is the first character, or none for empty input. |
| Lexing.Advance | src/lexer.rs:34-43 | Advancing reports true exactly when the cursor was before the end, and then moves by exactly one. At the end it stays put, so the position never passes the input length. |
| Lexing.SkipWhitespace | src/lexer.rs:45-49 | Only whitespace is skipped. The cursor stops on the first non-whitespace character or at the end. |
| Lexing.SkipWhitespaceIdempotent | src/lexer.rs:45-49 | Skipping whitespace twice is the same as skipping it once. |
| Lexing.NumberRunEndIsMaximal | src/lexer.rs:55-70 | The number loop scans digits with at most one dot. It stops at the end of input, at a character that cannot be in a number, or at a second dot, which is not consumed. |
| Lexing.ReadNumberLoop | src/lexer.rs:55-70 | The loop's text is exactly the input between the start and where the scan stops, and the cursor is left there. |
| Lexing.ReadNumber | src/lexer.rs:51-82 | Reading succeeds exactly when the current character is a digit or a dot. It consumes a maximal numeric run. The value is the run's conversion, or 0.0 when the run does not convert. |
| Lexing.MaximalNumberRunIsUnique | src/lexer.rs:55-70 | Only one maximal numeric run starts at a given position, so the token a number read yields is determined by the input. |
| Lexing.IdentifierRunEndIsMaximal | src/lexer.rs:88-104 | The identifier loop takes a letter or `_` first, then letters, digits and `_`, as far as they go. It takes nothing when the first character cannot start an identifier. |
| Lexing.ReadIdentifierLoop | src/lexer.rs:88-104 | The loop's text is exactly the input between the start and where the scan stops. |
| Lexing.ReadIdentifier | src/lexer.rs:84-116 | Reading succeeds exactly when the current character can start an identifier. It returns the maximal identifier run as the name. |
| Lexing.MatchPlainToken | src/lexer.rs:118-130 | Exactly the eight characters `+ - * / = ( ) ;` are single-character tokens, each giving the token whose character it is. |
| Lexing.PlainTokenTableIsBijective | src/lexer.rs:118-130 | The character-to-token table and its inverse agree in both directions. |
| Lexing.NextToken | src/lexer.rs:132-146 | The lexer never reaches the two malformed-run panics. After whitespace, a plain character yields its token and consumes one character. A digit or dot yields the converted maximal numeric run. A letter or `_` yields the maximal identifier run. Anything else, or the end of input, yields `EoF` and consumes nothing. |
| Lexing.EoFIsSticky | src/lexer.rs:144 | Once the lexer yields `EoF` it stays in place and keeps yielding `EoF`. |
| Lexing.NonEoFTokenConsumes | src/lexer.rs:135-143 | Every token other than `EoF` moves the cursor forward. |
| Lexing.TokensFrom | src/tests.rs:21-24 | Pulling tokens until `EoF` yields a stream that ends in its only `EoF`. |
| Lexing.Tokenize | src/tests.rs:21-24 | The token stream of a whole input ends in `EoF`. |
| Lexing.ParseFloat | src/lexer.rs:81 | A run converts exactly when it is a decimal literal: digits with at most one dot and at least one digit. |
| LexingExamples.ParseFloatWithFraction | src/tests.rs:33 | `3.14` converts to 3.14. |
| LexingExamples.ParseFloatWithoutWholePart | src/tests.rs:38 | `.4` converts to 0.4. |
| LexingExamples.ParseFloatEdgeCases | src/lexer.rs:81 | `42` and `4.` convert. A lone `.` does not. |
| LexingExamples.SecondDotEndsNumber | src/lexer.rs:58-61 | In `3.14.5` the lexer reads the number 3.14 and stops in front of the second dot. |
| LexingExamples.LeadingDotNumber | src/lexer.rs:140 | ` .4)` lexes to the number 0.4 and stops at the parenthesis. |
| LexingExamples.LoneDotIsZero | src/lexer.rs:81 | A lone dot lexes as the number 0.0, not as an error. |
| LexingExamples.UnderscoreIdentifier | src/tests.rs:36 | `_4f` is a single identifier. |
| Ast.TokenToBinaryOp | src/ast.rs:31-40 | The result is `Ok` exactly for the four operator tokens. Every other token is an error that names the token. |
| Ast.OperatorToken | src/ast.rs:33-37 | Every operator has an operator token. |
| Ast.TokenToBinaryOpIsBijective | src/ast.rs:33-38 | A token maps to an operator exactly when it is that operator's token: `+ - * /` map to add, subtract, multiply and divide. |
| Ast.TokenToBinaryOpIsInjective | src/ast.rs:33-37 | Distinct operator tokens give distinct operators. |
| Parsing.ExpectNumber | src/parser.rs:22-33 | Succeeds exactly on a number token, returning it and advancing one token. On failure it stays put and reports what it saw. |
| Parsing.ExpectIdentifier | src/parser.rs:35-46 | Succeeds exactly on an identifier token and advances one. On failure it stays put. |
| Parsing.ExpectIdentifierOrNumber | src/parser.rs:48-57 | Succeeds exactly on an identifier or number token and advances one. On failure it stays put. |
| Parsing.ExpectOperator | src/parser.rs:59-70 | Succeeds exactly on `+ - * /` and advances one. On failure it stays put. |
| Parsing.ExpectToken | src/parser.rs:72-82 | Succeeds exactly when the current token is the expected one, and advances one. On failure it stays put. |
| Parsing.ParsePrimary | src/parser.rs:84-100 | A parsed primary consumes input and is an expression tree. The panic at line 95 is unreachable. |
| Parsing.ParseFactor | src/parser.rs:102-122 | A parsed factor consumes input and is an expression tree. |
| Parsing.FactorLoop | src/parser.rs:104-121 | The loop never moves backwards, and it extends an expression to an expression. |
| Parsing.ParseTerm | src/parser.rs:124-144 | A parsed term consumes input and is an expression tree. |
| Parsing.TermLoop | src/parser.rs:126-143 | The loop never moves backwards, and it extends an expression to an expression. |
| Parsing.ParseExpression | src/parser.rs:146-148 | A parsed expression consumes input and is an expression tree. |
| Parsing.ParseAssignment | src/parser.rs:150-167 | A parsed statement consumes input and is an assignment of an expression. |
| Parsing.ParseStatements | src/parser.rs:175-177 | The statement loop yields only assignments. Its outcome, statement by statement, is stated by the `ParserProperties` chain lemmas. |
| Parsing.ParseProgram | src/parser.rs:173-180 | A parsed program is a `Program` of assignments. Its error is characterised by `ParserProperties.ProgramErrorIsFirstFailure`. |
| ParserRoundTrip.ExpressionRoundTrip | src/parser.rs:102-148 | Parsing the printed form of any expression, left-nested with parentheses only where precedence needs them, gives that expression back and consumes exactly the printed tokens. This covers precedence and left association. |
| ParserRoundTrip.StatementRoundTrip | src/parser.rs:150-167 | Parsing `name = expression ;` gives that assignment back. |
| ParserRoundTrip.StatementsRoundTrip | src/parser.rs:175-177 | The statement loop parses a printed statement list back to the same list, in source order. |
| ParserRoundTrip.ProgramRoundTrip | src/parser.rs:173-180 | For every list of assignments, parsing its printed token stream gives `Program` of that list. |
| ParserRoundTrip.PrimaryParses | src/parser.rs:84-100 | A number, a name, or a parenthesised expression laid out in the tokens parses to itself. |
| ParserRoundTrip.ProductParses | src/parser.rs:102-122 | A product laid out in the tokens parses to itself, folded to the left, and the loop continues after it. |
| ParserRoundTrip.SumParses | src/parser.rs:124-144 | A sum laid out in the tokens parses to itself, folded to the left, when no `*` or `/` follows it. |
| ParserProperties.FactorLoopNeverFails | src/parser.rs:104-121 | The `*`/`/` loop never fails. With no operator it returns the left expression in place. When the operand after an operator fails, it returns the left expression from where that operand failed. |
| ParserProperties.TermLoopNeverFails | src/parser.rs:126-143 | The `+`/`-` loop never fails. With no operator it returns the left expression in place. When the factor after an operator fails, it returns the left expression from where that factor failed. |
| ParserProperties.StatementsFollowChain | src/parser.rs:175-177 | If statements parse one after another from a position up to `EoF`, the loop returns exactly them. If they reach a statement that fails, the loop returns that statement's error, whatever follows. |
| ParserProperties.StatementsResultIsChain | src/parser.rs:175-177 | The statements the loop returns were parsed one after another, each starting before `EoF`, up to `EoF`. |
| ParserProperties.StatementsErrorIsFirstFailure | src/parser.rs:175-177 | A failing loop fails with the error of the first statement that fails. Every statement before it parsed. |
| ParserProperties.ProgramFollowsChain | src/parser.rs:173-180 | From the first token, a chain of statements to `EoF` is the parsed `Program`. A chain to a failing statement makes that statement's error the program's. |
| ParserProperties.ProgramErrorIsFirstFailure | src/parser.rs:173-180 | A program that fails to parse fails with the error of its first failing statement, reached by a chain of statements that all parse. |
| ParserProperties.ExpressionFailsOnlyAtFirstPrimary | src/parser.rs:102-148 | An expression fails to parse exactly when its first primary does. |
| ParserProperties.PrecedenceExample | src/tests.rs:49-68 | The token stream of `x = 10 + 5 * 2;` parses as `x = 10 + (5 * 2)`. |
| ParserProperties.LeftAssociationExample | src/parser.rs:124-144 | The token stream of `y = a - b - c;` parses as `y = (a - b) - c`. |
| ParserProperties.ParenthesesExample | src/parser.rs:84-90 | The token stream of `y = a - (b - c);` keeps the grouping, with no node for the parentheses. |
| ParserProperties.MissingOperandExample | src/parser.rs:136-139 | The token stream of `x = 1 + ;` parses as `x = 1;`. |
| ParserProperties.UnclosedParenthesisExample | src/parser.rs:84-139 | The token stream of `x = 1 + (2 ;` parses as `x = 1;`. The unclosed group is swallowed by the recovery path. |
| ParserProperties.MissingAssignExample | src/parser.rs:150-157 | The token stream of `x 5;` fails with "expected `=`, saw the number 5". |
| SymbolTables.NewTable | src/semantic_analyzer.rs:24-31 | A new table has one scope, which is current, and no name is visible. |
| SymbolTables.EnterScope | src/semantic_analyzer.rs:33-38 | The cursor moves up one. Existing scopes are kept, and new scopes are added empty until the cursor is valid. |
| SymbolTables.ExitScope | src/semantic_analyzer.rs:40-49 | Exiting faults exactly at scope 0. Otherwise it drops the current scope and everything above it, and moves the cursor down one. |
| SymbolTables.Declare | src/semantic_analyzer.rs:51-70 | Declaring errs exactly when the name is already in the current scope. Otherwise it adds the symbol at the current level and leaves every other scope alone. |
| SymbolTables.LookupFrom | src/semantic_analyzer.rs:72-79 | A lookup finds a name exactly when some scope up to the current one holds it. It returns the entry of the innermost such scope. |
| SymbolTables.LookupFindsInnermost | src/semantic_analyzer.rs:72-79 | An inner declaration shadows every outer one. |
| SymbolTables.LookupMisses | src/semantic_analyzer.rs:72-79 | A name held by no scope up to the current one is not found. |
| SymbolTables.LookupIgnoresHigherScopes | src/semantic_analyzer.rs:72-79 | Scopes above the current one do not affect lookups. |
| SymbolTables.DeclareThenLookup | src/semantic_analyzer.rs:51-79 | A declared name is found with its type and level. Lookups of other names are unchanged. |
| SymbolTables.EnterScopeKeepsLookups | src/semantic_analyzer.rs:33-38 | Entering a scope changes no lookup. |
| SymbolTables.ExitUndoesEnter | src/semantic_analyzer.rs:33-49 | Exiting right after entering restores the table. |
| SymbolTables.ExitThenEnterForgets | src/semantic_analyzer.rs:40-48 | Leaving a scope and re-entering finds it empty, so its declarations are gone. |
| SymbolTables.SymbolTableScenario | src/semantic_analyzer.rs:196-244 | Replays the symbol-table test: scope counts, lookup through scopes, shadowing, duplicate rejection, and forgetting an exited scope. |
| SemanticAnalysis.NewAnalyzer | src/semantic_analyzer.rs:101-108 | A new analyzer has a new table and no diagnostics. |
| SemanticAnalysis.ExpressionType | src/semantic_analyzer.rs:174-188 | Numbers and operations are typable. A name is typable exactly when it is visible, with its declared type. Nothing else is typable. |
| SemanticAnalysis.AddError | src/semantic_analyzer.rs:167-172 | Appends one diagnostic and changes nothing else. |
| SemanticAnalysis.Visit | src/semantic_analyzer.rs:120-165 | The walk keeps the table valid at the same level, and only ever appends diagnostics. |
| SemanticAnalysis.VisitAssignment | src/semantic_analyzer.rs:127-142 | The assignment case keeps the table valid and only appends diagnostics. |
| SemanticAnalysis.VisitOperation | src/semantic_analyzer.rs:143-153 | The operation case keeps the table valid and only appends diagnostics. |
| SemanticAnalysis.VisitAll | src/semantic_analyzer.rs:122-126 | The statement loop keeps the table valid and only appends diagnostics. |
| SemanticAnalysis.Analyze | src/semantic_analyzer.rs:110-118 | The verdict is `Ok` exactly when the walk recorded no diagnostic. Otherwise it carries every recorded diagnostic, and the analyzer's list is left empty. |
| AnalysisProperties.FlatLookup | src/semantic_analyzer.rs:72-79 | In a single-scope table of integer names, a name is found exactly when it was declared. |
| AnalysisProperties.FlatExpressionType | src/semantic_analyzer.rs:174-188 | Over such a table, an expression's type depends only on the set of declared names. |
| AnalysisProperties.FlatDeclare | src/semantic_analyzer.rs:51-70 | Over such a table, declaring succeeds exactly for a new name and adds it to the set. |
| AnalysisProperties.ExprReportsEmpty | src/semantic_analyzer.rs:143-162 | An expression draws no diagnostic exactly when every name it reads is declared. |
| AnalysisProperties.VisitExpression | src/semantic_analyzer.rs:143-163 | Visiting an expression appends exactly its reference diagnostics. Each occurrence of an undeclared name is reported, left to right. A type mismatch follows the operands of every operation whose operands type differently. |
| AnalysisProperties.OperationReports | src/semantic_analyzer.rs:143-153 | An operation reports the left operand's diagnostics, then the right's, then its own mismatch. |
| AnalysisProperties.VisitStatementAsWritten | src/semantic_analyzer.rs:127-142 | As written, an assignment faults exactly when its value is an undeclared bare name. Otherwise it reports only a duplicate declaration, and never anything inside the value. |
| AnalysisProperties.VisitStatementIntended | src/semantic_analyzer.rs:127-142 | As intended, an assignment reports its value's diagnostics, then a duplicate declaration. It never faults. |
| AnalysisProperties.DuplicateReportsEmpty | src/semantic_analyzer.rs:138-140 | No duplicate is reported exactly when no statement assigns a name that is already declared or assigned earlier. |
| AnalysisProperties.VisitAllAsWritten | src/semantic_analyzer.rs:122-142 | As written, a statement list faults exactly when some value is a bare name not yet assigned. Otherwise it reports exactly the duplicate declarations. |
| AnalysisProperties.VisitAllIntended | src/semantic_analyzer.rs:122-142 | As intended, a statement list never faults. It reports nothing exactly when each value reads only earlier-assigned names and no name is assigned twice. Then the table holds exactly the assigned names. |
| AnalysisProperties.NewTableIsFlat | src/semantic_analyzer.rs:24-31 | The new table is the single-scope table with no names. |
| AnalysisProperties.AnalyzeAsWritten | src/semantic_analyzer.rs:110-142 | As written, analysing a program faults exactly when some value is a bare name not assigned before it. Otherwise the verdict is `Ok` exactly when no name is assigned twice. |
| AnalysisProperties.AnalyzeIntended | src/semantic_analyzer.rs:110-142 | As intended, analysing a program never faults. The verdict is `Ok` exactly when every value reads only names assigned before it and no name is assigned twice. |
| AnalysisProperties.VisitPrepends | src/semantic_analyzer.rs:143-172 | The walk's outcome does not depend on earlier diagnostics, which stay in front of the new ones. |
| AnalysisProperties.VisitAllPrepends | src/semantic_analyzer.rs:122-126 | The statement loop does not depend on earlier diagnostics, which stay in front of the new ones. |
| AnalysisProperties.AnalyzeReportsEarlierThenOwn | src/semantic_analyzer.rs:110-118 | `analyze` returns the diagnostics it held before the call, followed by the walk's own. After an `Err` the list is empty, so a later call reports only its own findings. |
| AnalysisProperties.UndefinedVariableExample | src/semantic_analyzer.rs:246-258 | A program whose only statement reads an undeclared name reports exactly `UndefinedVariable` for it. |
| AnalysisProperties.DuplicateDeclarationExample | src/semantic_analyzer.rs:260-280 | `x = 1; x = 2;` reports exactly one `DuplicateDeclaration`. |
| AnalysisProperties.TypeMismatchExample | src/semantic_analyzer.rs:282-305 | An integer plus a function-typed name reports exactly one `TypeMismatch`. |
| AnalysisProperties.UnvisitedValueExample | src/semantic_analyzer.rs:127-141 | `x = y + 1;` with `y` undeclared is accepted as written. As intended it reports `UndefinedVariable y` and a type mismatch. |
| AnalysisProperties.UntypableValueExample | src/semantic_analyzer.rs:128-136 | `x = y;` with `y` undeclared faults as written. As intended it reports `UndefinedVariable y` and declares nothing. |
| AnalysisProperties.RepeatedNameExample | src/semantic_analyzer.rs:143-162 | `y + y` with `y` undeclared reports the name twice, because diagnostics are not deduplicated. |
| Codegen.OperatorInstruction | src/interpreter.rs:62-69 | Every operator compiles to an arithmetic instruction. |
| Codegen.OperatorInstructionIsInvertible | src/interpreter.rs:62-69 | The operator-to-instruction map is one-to-one onto the four arithmetic instructions. |
| Codegen.NewInterpreter | src/interpreter.rs:22-27 | A new interpreter's buffer is empty. |
| Codegen.Emit | src/interpreter.rs:36-60 | The walk only appends to the buffer and never emits `Stop`. |
| Codegen.EmitAll | src/interpreter.rs:49-54 | The statement loop only appends and never emits `Stop`. |
| Codegen.GenerateInstructions | src/interpreter.rs:29-34 | The returned code is the interpreter's buffer. It ends with `Stop`, and `Stop` appears nowhere else. |
| Codegen.EmitAppendsCode | src/interpreter.rs:36-60 | The walk appends exactly the node's code: a load per leaf, operands before operators, a value before its store, and statements back to back. |
| Codegen.EmitAllAppendsCode | src/interpreter.rs:49-54 | The statement loop appends the statements' code with nothing in between. |
| Codegen.GenerateInstructionsIsCode | src/interpreter.rs:29-34 | The output is the program's code followed by `Stop`, whatever the buffer held before, so repeated calls agree. |
| Codegen.CodeStoresAssigned | src/interpreter.rs:45-48 | The code stores to exactly the assigned names, once per assignment, in order. |
| Codegen.CodeAllStoresAssigned | src/interpreter.rs:49-54 | A statement list's code stores to its assigned names, in order. |
| Codegen.ExpressionCodeStoresNothing | src/interpreter.rs:38-44 | An expression's code has no store and no `Stop`. |
| Machine.NewVm | src/vm.rs:15-24 | A new machine has the given code and table, and an empty stack and store, at instruction 0. |
| Machine.PopTwo | src/vm.rs:89-98 | Popping two succeeds exactly when at least two values are on the stack. It returns the top as the first value and the one beneath as the second. |
| Machine.Arithmetic | src/vm.rs:63-81 | Only division can fault. As written it faults on a zero dividend or a zero divisor. As intended it faults exactly on a zero divisor, with `DivideByZero`. |
| Machine.ArithmeticAgreesWithApply | src/vm.rs:63-81 | When an operation succeeds it computes `lhs op rhs`, left operand second-popped. With the divisor check it fails exactly where the quotient is undefined. |
| Machine.Step | src/vm.rs:39-87 | One instruction changes the stack height by its pushes minus its pops and leaves the stack below its operands alone. Only a store changes the store, writing the top value under its name. Only loads, stores and arithmetic can fault. |
| Machine.LoadVariableStep | src/vm.rs:45-55 | Loading a name faults when it is not visible in the table, faults when it is visible but not stored, and otherwise pushes its stored value. |
| Machine.ArithmeticStep | src/vm.rs:63-98 | With fewer than two values an operation faults. Otherwise it replaces the top two values with the result of the second-from-top combined with the top. |
| Machine.StopIsNoOp | src/vm.rs:82-84 | `Stop` changes nothing. |
| Machine.Evaluate | src/vm.rs:39-87 | Evaluating keeps the code, table and counter, and does nothing past the end of the code. |
| Machine.Run | src/vm.rs:31-34 | A successful run leaves the counter at the end of the code. |
| Machine.Execute | src/vm.rs:26-37 | A successful execution runs to the end of the code. |
| Machine.RunIsExec | src/vm.rs:31-34 | Running from a counter executes the remaining instructions in order, one step each, stopping at the first fault. |
| Machine.ExecAppend | src/vm.rs:31-34 | Running two code sequences back to back is running the first, then the second from where it left off. |
| Machine.ExecuteIsExec | src/vm.rs:26-37 | `execute` resets the stack, store and counter, then runs the whole code. |
| Machine.ExecuteIsRepeatable | src/vm.rs:26-37 | Executing again gives the same result. |
| Machine.DividendCheckRejectsZeroDividend | src/vm.rs:76-80 | As written, `0 / d` faults with `DivideByZero`, although for nonzero `d` its quotient is 0. |
| Machine.DividendCheckPassesZeroDivisor | src/vm.rs:76-80 | As written, `n / 0` with nonzero `n` passes the check. The model stops it as a non-finite result. |
| Machine.DivisorCheckIsExact | src/vm.rs:76-80 | As intended, division faults exactly when the divisor is zero, and otherwise yields the quotient. |
| CompilerCorrectness.Eval | src/vm.rs:42-81 | Evaluation succeeds only if every name it reads is visible and stored. When all are, only a division can fault, and with the divisor check only a zero divisor. |
| CompilerCorrectness.OperationStep | src/vm.rs:63-81 | An operation instruction on a stack that ends with two operand values combines them as the evaluator does. |
| CompilerCorrectness.CodeComputesEval | src/interpreter.rs:38-44 | Running an expression's code on any stack pushes the expression's value onto that stack, or stops with the evaluator's fault. |
| CompilerCorrectness.AssignmentCodeStores | src/interpreter.rs:45-48 | An assignment's code stores its value under its name and leaves the stack as it was. |
| CompilerCorrectness.ProgramCodeInterprets | src/interpreter.rs:49-54 | A program's code runs the assignments in order, ending with the evaluator's store or its first fault. |
| CompilerCorrectness.ExecuteInterpretsProgram | src/vm.rs:26-37 | Executing the compiled program from a reset machine gives exactly the evaluator's store, or the same fault. |
| Pipeline.InterpretFaultsOnlyOnDivision | src/vm.rs:45-62 | Assignments that read only names already stored and visible can only fault on a zero divisor. They store exactly the assigned names. |
| Pipeline.AcceptedProgramTable | src/semantic_analyzer.rs:110-142 | A program accepted by the intended analysis is well scoped, and its table declares exactly the assigned names. |
| Pipeline.AcceptedProgramsFaultOnlyOnDivision | src/vm.rs:39-87 | A program the intended analysis accepts, compiled and run on the corrected machine with the analysis's table, either stores exactly its assigned names or stops on a zero divisor. |
| Pipeline.SampleProgramRuns | src/vm.rs:26-87 | The compiled tree of `x = (10 + 5 * 2) / 4; y = x + 10; z = y - y / 5;` stores x = 5, y = 15 and z = 12 under either division check. |
| Pipeline.ZeroDividendExample | src/vm.rs:76-80 | The compiled tree of `x = 0 / 5;` faults as written. The corrected machine stores x = 0. |
| Pipeline.ZeroDivisorExample | src/vm.rs:76-80 | The compiled tree of `x = 1 / 0;` passes the written check. The corrected machine faults with `DivideByZero`. |

## Left out

- src/main.rs and src/lib.rs are not part of this model. The first is a toy entry point with its own token enum and only printing; the second only declares modules.
- src/tests.rs is not modelled. Its assertions appear as example lemmas.
- The tokenizer test of src/tests.rs:17-45 is not proved as one 15-token lemma, which is too costly for the verifier. Its parts are proved separately in `LexingExamples`.
- Lexing.ParseFloat: gives the exact decimal value of a literal instead of the nearest `f64`. IEEE rounding is not modelled.
- Machine.Arithmetic: `real` arithmetic has no overflow, infinity or NaN. Past the written check, a division by zero would store an infinity in the source; the model stops it with the fault `NonFiniteResult`.
- Character classes are ASCII. Letters are `a`-`z` and `A`-`Z`. Whitespace is space, tab, line feed, vertical tab, form feed and carriage return. Unicode classification is not modelled.
- Panic texts and diagnostic message texts are not modelled. A fault or diagnostic carries its kind and the names or operands involved.
- The parser's `println!` calls on the recovery path (src/parser.rs:115, 137) are not modelled.
- The parser works over a token sequence and an index instead of pulling tokens from a live lexer. `Parsing.Parse` composes the two, and `Parser::new`/`advance` become reading the next index.
- `boxed_node` (src/ast.rs:26-28) is the identity. Boxes are transparent in Dafny datatypes.
- `HashMap` iteration order is not modelled. The store is a `map`.
- SemanticAnalysis.VisitAssignment: in the intended variant, an untypable value skips the declaration. That value is an undeclared bare name, already reported as `UndefinedVariable`. The source has no such path, because it panics.
- The VM receives its symbol table as a parameter. The source wires no pipeline; the end-to-end theorem passes the table the intended analysis builds.
- `Type::Function` arises only through direct declaration in tests. The analyzer itself declares only integers.

## Findings

| source | as written | input that shows it | evidently intended | confidence | as-written member | corrected member |
|---|---|---|---|---|---|---|
| src/semantic_analyzer.rs:127-141 | The `Assignment` case types its value and declares the variable, but never visits the value. | `x = y + 1;` with `y` undeclared: no diagnostic, and the verdict is `Ok`. `x = y;` panics instead of reporting. | Visit the value first, so every undeclared name it reads is reported. | not executed | AnalysisProperties.UnvisitedValueExample | AnalysisProperties.AnalyzeIntended |
| src/vm.rs:76-80 | The division check tests `n2`, the second-popped dividend, for zero. | `x = 0 / 5;` panics with "Cannot divide by zero!". `x = 1 / 0;` passes the check and divides by zero. | Fault exactly when the divisor `n1` is zero. | not executed | Pipeline.ZeroDividendExample | Machine.DivisorCheckIsExact |
