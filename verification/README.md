# BlazingSQL relational algebra engine: a verified model

This project models the parts of the engine that turn a query plan into results on a cluster of GPU nodes, and
proves what they compute.

- **Expressions.** The planner's text `op(a, b)` is cleaned (`CalciteText`, `ConnectiveExpansion`,
  `CalciteTokens`), compiled by a stack and a first-fit register allocator to parallel instruction vectors
  (`CalciteExpression`, `LogicalFilter`), and executed row by row by a register machine (`RegisterMachine`).
  `LeafTexts` and `OperatorNames` say what columns, literals and each operator name stand for.
  `ExpressionCompiler` proves that compilation preserves meaning, `RegisterUse` that allocation is safe and
  tight, `Projection` that many expressions share one register file without disturbing each other,
  `InstructionEncoding` how instructions are encoded, `FilterStencil` when the byte that selects a row is
  faithful to its condition and what nulls do to it, `ValidityLoads`, `SqlStates` and `SqlFilter` which
  conditions filter as SQL demands, and `TextToValue` and `WhereClause` put text, compiler, machine and filter
  together.
- **Division by magic numbers.** `FastDivision` proves `int_fastdiv` exact on all 32-bit operands.
- **Distributed operators.** `Exchange` is the partition exchange as a protocol with arbitrary interleavings,
  `MasterCollects` the simpler one to the master; `Shuffle` says what a finished round does to rows. Over
  them, `RangePartition` with `DistributedSort`, `GroupBy` with `DistributedGroupBy`, and `JoinCondition` with
  `DistributedJoin` prove that the cluster computes what a single node would, and `JoinText` does so from the
  text of the join condition. `Tables` and `Collections` hold rows, keys, and the library routines (sort,
  merge, upper bound, concatenation), written out and proved; `Basics` has small facts.
- **Plan trees.** `PlanTree` evaluates indented plan text and recovers the tree from the indentation;
  `DistributedPlan` puts the distributed operators into it: whole plans, one node against the cluster.
- **Ownership and data movement.** `ColumnOwnership` is the reference counter with its handles, `ColumnCache`
  the cache of loaded columns under the file parser, `ValidityGather` with `BitMask` the grid-stride gather of
  validity bits.

Methods follow the source's loops and fields and are tied to specification functions; lemmas then say what
those functions mean. Where a natural property does not hold of the code, the exact condition is proved:
`AlignedIff`, `FaithfulIff` and `FaithfulOnRowsIff` (with `StencilLosesRow`), `StatesIff` and `SqlOnRowsIff`
(agreement of filters with SQL, with `MisplacedLoad`), `AlwaysCorrectIff` (with `RoundsCanMix`),
`AlignedIffCrossing`, `OutputRightIff` (with `RepeatedRequestMisleads`), `DanglesIffFreed`, `WrapCountsIff`.

The code and its comments disagree in two places, and the model follows the code. The comment at
src/LogicalFilter.cpp:270 says that two spaces are always enough; the number needed grows with the expression
(`RegisterUse.AllocationIsTight`). The comments at src/CalciteExpressionParsing.cpp:791 and 843 call a doubled
quote an escape; the cursor moves by one character only, so the second quote closes the string
(`CalciteText.DoubledQuoteEnds`).

Arguments named `ghost` exist for the proof only: `ExpandIfLogicalOp(input, ghost t)` works on the text and
looks at the tree nowhere. The arithmetic of the register machine is a parameter (`Alu`), so that what is
proved about compilation holds for any arithmetic; only filters fix it, to integers for the data and to
validity bits for the mask.

## Model

| member | source | states |
|---|---|---|
| `FastDivision.MagicLoop` | src/gdf_wrapper/utilities/int_fastdiv.h:70-99 | The do-while ends with 32 <= p <= 62; quotients and remainders at exit are those of 2^p by the critical magnitude and by the divisor's magnitude, no unsigned intermediate leaves 32 bits, and when 2^31 is -1 modulo the divisor it stops at p = 32 |
| `FastDivision.HeadBounds` | src/gdf_wrapper/utilities/int_fastdiv.h:70-99 | As long as the loop goes on, p <= 61 and both quotients are below 2^31, so that doubling them stays within 32 unsigned bits |
| `FastDivision.MagicFound` | src/gdf_wrapper/utilities/int_fastdiv.h:99-110 | When the loop stops, q2 + 1 is a magic multiplier for the divisor: the rounding error times the critical magnitude is below 2^p |
| `FastDivision.ErrorBound` | src/gdf_wrapper/utilities/int_fastdiv.h:73-103 | A magic multiplier's error stays below one unit for every magnitude a 32-bit dividend can have, the extreme ones included |
| `FastDivision.MagnitudeExact` | src/gdf_wrapper/utilities/int_fastdiv.h:117-133 | Multiplying by the multiplier and shifting by p gives the exact quotient of magnitudes, and for negative dividends the floor that the sign bit then corrects |
| `FastDivision.DivideComputes` | src/gdf_wrapper/utilities/int_fastdiv.h:117-133 | Multiply-high, correction by n_add_sign, arithmetic shift and sign-add give the quotient truncated toward zero, for every dividend and every divisor other than 0, with the fields of 1 and -1 included |
| `FastDivision.QuotientFits` | src/gdf_wrapper/utilities/int_fastdiv.h:117-133 | The truncated quotient is a 32-bit number if and only if it is not -2^31 divided by -1 |
| `FastDivision.TruncModFacts` | src/gdf_wrapper/utilities/int_fastdiv.h:135-141 | The remainder is smaller than the divisor in magnitude and takes the sign of the dividend |
| `FastDivision.RemainderFits` | src/gdf_wrapper/utilities/int_fastdiv.h:135-141 | n - q * d survives the wrapping multiplication and subtraction, whatever q * d wraps to |
| `FastDivision.IntFastdiv.constructor` | src/gdf_wrapper/utilities/int_fastdiv.h:25-30 | Constructing from a non-zero divisor gives fields that divide by it exactly |
| `FastDivision.IntFastdiv.Assign` | src/gdf_wrapper/utilities/int_fastdiv.h:32-38 | Assigning a divisor replaces it and makes the fields right for the new one |
| `FastDivision.IntFastdiv.UpdateMagicNumbers` | src/gdf_wrapper/utilities/int_fastdiv.h:51-111 | M, s and n_add_sign become a valid multiplier, shift and correction for d, for every d other than 0 |
| `FastDivision.IntFastdiv.Divide` | src/gdf_wrapper/utilities/int_fastdiv.h:117-133 | The result is the quotient truncated toward zero, except for -2^31 by -1, where it wraps: exact if and only if the operands are not that pair |
| `FastDivision.IntFastdiv.Modulo` | src/gdf_wrapper/utilities/int_fastdiv.h:135-141 | The result is the matching remainder for every operand pair, -2^31 by -1 included |
| `FastDivision.CorrectionFits` | src/gdf_wrapper/utilities/int_fastdiv.h:126 | The correction product fits in 32 bits except for the smallest dividend under the factor -1 |
| `CalciteText.CloseTree` | src/CalciteExpressionParsing.cpp:769-811 | Looking for a closing parenthesis, the scanner passes over the whole text of any tree and comes out at the depth it went in with |
| `CalciteText.GetExpressionsFromExpressionList` | src/CalciteExpressionParsing.cpp:814-895 | The untrimmed pieces between the commas outside quotes, parentheses and brackets, with no piece for an empty end |
| `CalciteText.SplitTree` | src/CalciteExpressionParsing.cpp:814-895 | Inside parentheses the splitter keeps the text of any tree together in its current piece |
| `CalciteText.SplitArgs` | src/CalciteExpressionParsing.cpp:814-895 | Splitting a printed argument list gives the printed arguments, in order, each but the first with its leading space |
| `CalciteText.FindClosingChar` | src/CalciteExpressionParsing.cpp:769-811 | The position of the character that closes the parenthesis or square bracket at `start`, quotes and doubled quotes taken as the code takes them, or -1 if there is none or `start` opens nothing |
| `CalciteText.DoubledQuoteEnds` | src/CalciteExpressionParsing.cpp:785-811 | A doubled quote inside quotes ends them, for the search for a closing character as for the splitter |
| `CalciteText.SplitBrackets` | src/CalciteExpressionParsing.cpp:814-895 | Commas inside square brackets separate nothing, and behind the brackets they do again |
| `CalciteText.NoEmptyLastPiece` | src/CalciteExpressionParsing.cpp:814-895 | A comma at the end is followed by no empty piece, and an empty list has none |
| `ConnectiveExpansion.SearchLeaf` | src/CalciteExpressionParsing.cpp:639-640 | No connective is found inside a literal or a column, quoted connectives included |
| `ConnectiveExpansion.SearchName` | src/CalciteExpressionParsing.cpp:639-640 | No connective is found inside another operator's name and parenthesis, as long as the name does not end in AND or OR |
| `ConnectiveExpansion.Seek` | src/CalciteExpressionParsing.cpp:636-655 | Between the position reached and the next find there is no connective, so that stretch of text is already what it has to become |
| `ConnectiveExpansion.NextConnective` | src/CalciteExpressionParsing.cpp:636-655 | The nearer of the two finds is exactly the next connective of the tree in text order, and there is none if both searches fail |
| `ConnectiveExpansion.NestIs` | src/CalciteExpressionParsing.cpp:672-687 | Rewriting one connective keeps what the whole text has to become, and leaves strictly fewer connectives at or after `start_pos` |
| `ConnectiveExpansion.FoldPrints` | src/CalciteExpressionParsing.cpp:672-682 | The text put together from the operator repeated, the first argument and the others each closed by a parenthesis is the text of the left-nested tree |
| `ConnectiveExpansion.Rejoin` | src/CalciteExpressionParsing.cpp:670-682 | The pieces glued back together are the text of the nested connective, and `start_pos` stands behind its operators |
| `ConnectiveExpansion.ExpandAt` | src/CalciteExpressionParsing.cpp:657-687 | One round of the loop passes a binary connective by and makes any other one binary; either way fewer connectives are left |
| `ConnectiveExpansion.ExpandIfLogicalOp` | src/CalciteExpressionParsing.cpp:629-694 | For the text of any tree whose connectives have at least two arguments, the output is the text of the same tree with every connective left-nested into binary ones; the loop terminates |
| `ConnectiveExpansion.LeftNestKeepsValue` | src/CalciteExpressionParsing.cpp:629-694 | The nested tree has the same value as the original, AND and OR of any arity being all and any |
| `CalciteTokens.Flatten` | src/CalciteExpressionParsing.cpp:741-753 | Opening parentheses become spaces, commas and closing parentheses go, and everything else stays in order |
| `CalciteTokens.FlatTree` | src/CalciteExpressionParsing.cpp:741-753 | Flattening the text of a tree gives its words in prefix order with a single space between them |
| `CalciteTokens.GetTokensInReverseOrder` | src/CalciteExpressionParsing.cpp:589-594 | The words between the spaces outside quotes, last one first |
| `CalciteTokens.WordsOfTree` | src/CalciteExpressionParsing.cpp:589-594 | Splitting the flat text of a tree gives back its operators and leaves, quoted literals whole |
| `CalciteTokens.TokensOfText` | src/CalciteExpressionParsing.cpp:589-594 | Printing, flattening, splitting and reversing gives the tree's words in reverse prefix order |
| `CalciteTokens.KnownIsOperator` | src/CalciteExpressionParsing.cpp:584-598 | No operator name of either map reads as a column, number, date or string, so `is_operator_token` takes all of them for operators |
| `CalciteTokens.RebuiltTree` | src/CalciteExpressionParsing.cpp:589-598 | Folding a tree's reversed tokens over a stack pushes exactly that tree on top of what was there |
| `CalciteTokens.RoundTrip` | src/CalciteExpressionParsing.cpp:589-594 | For any fixed-arity tree, printing, flattening, splitting, reversing and folding over a stack gives back exactly that tree |
| `CalciteTokens.CleanCalciteExpression` | src/CalciteExpressionParsing.cpp:739-753 | The cleaned text is the flat text of the tree with binary connectives |
| `CalciteTokens.TokenizeExpression` | src/CalciteExpressionParsing.cpp:739-753 | The tokens of the cleaned text are those of the left-nested tree, and folding them gives it back |
| `CalciteTokens.NestFixed` | src/CalciteExpressionParsing.cpp:629-694 | Once connectives are binary, every operator has exactly the operands the compiler pops for it |
| `CalciteTokens.TokensOfTyped` | src/CalciteExpressionParsing.cpp:566-598 | The classified tokens of a tree are the tokens of the expression the compiler works on |
| `CalciteTokens.CompilerTokens` | src/CalciteExpressionParsing.cpp:589-598 | For any expression, AND and OR of any arity included, the tokens of the cleaned text are those of the left-nested expression in the compiler's order |
| `CalciteTokens.FlatConcat` | src/CalciteExpressionParsing.cpp:741-753 | Flattening goes character by character: it treats a text the same way whatever stands before and after it |
| `CalciteTokens.MarksInQuotesLost` | src/CalciteExpressionParsing.cpp:741-753 | Within quotes, too, commas and closing parentheses vanish and opening ones become spaces, so that different string literals can become the same |
| `LeafTexts.NumberOfDecimal` | src/CalciteExpressionParsing.cpp:600-608 | A column index printed in decimal, as the planner and the operand stack (src/LogicalFilter.cpp:258) write it, is read as that index, for every number |
| `LeafTexts.ColumnLeaf` | src/CalciteExpressionParsing.cpp:600-608 | The text $n is no operator, stays whole from text to compiler, and is column n for the compiler and for the join's parser |
| `LeafTexts.NumberLeaf` | src/CalciteExpressionParsing.cpp:584-598 | Signed integers, decimal fractions and numbers with an exponent are literals, not operators |
| `LeafTexts.StringLeaf` | src/CalciteExpressionParsing.cpp:575-598 | Anything without quotes between two single quotes is a literal, not an operator |
| `LeafTexts.DateLeaf` | src/CalciteExpressionParsing.cpp:272-276 | Dates of the years 1000 to 2999 with month and day in range are literals, not operators |
| `OperatorNames.BinaryNames` | src/CalciteExpressionParsing.cpp:540-556 | Which binary operation each of the fifteen names stands for, as a token and with two operands in the text |
| `OperatorNames.UnaryNames` | src/CalciteExpressionParsing.cpp:509-530 | Which unary operation each of the twenty names stands for, as a token and with its operand in the text |
| `OperatorNames.ComparisonsMean` | src/CalciteExpressionParsing.cpp:540-556 | Each of the six comparison names, between any two operands, holds exactly if their values are so related |
| `OperatorNames.ColumnConditions` | src/CalciteExpressionParsing.cpp:540-556 | A comparison of $i and $j compares cells i and j of the row, and a null test of $i says whether cell i is null |
| `OperatorNames.CoalesceMeans` | src/Interpreter/interpreter_ops.cuh:632-640 | COALESCE of a column and x is the column's cell where that is not null, and x where it is |
| `OperatorNames.NullTestsMean` | src/Interpreter/interpreter_ops.cuh:820-830 | IS_NULL and IS_NOT_NULL of a column are the truth of its cell being null or not |
| `OperatorNames.ArithmeticMeans` | src/Interpreter/interpreter_ops.cuh:608-625 | Over integers + and * in the text are the sum and the product of the operands' values |
| `RegisterMachine.RunConcat` | src/Interpreter/interpreter_ops.cuh:508-760 | Running two programs one after the other is running their concatenation, failures included |
| `RegisterMachine.AppendInstructions` | src/Interpreter/interpreter_cpp.cu:235-251 | Parallel vectors appended to parallel vectors are the two instruction lists one after the other |
| `RegisterMachine.MaxOutput` | src/Interpreter/interpreter_cpp.cu:233-240 | The largest output register, found among the outputs unless it is 0 |
| `LogicalFilter.GetFirstOpenPosition` | src/LogicalFilter.cpp:30-38 | The first free position from the start on is returned and taken, or -1 and nothing changes |
| `LogicalFilter.FirstFitCounts` | src/LogicalFilter.cpp:30-38 | With k temporaries live, first fit yields start + k, or -1 exactly when start + k is no position |
| `LogicalFilter.PlanVectors.PushBinary` | src/LogicalFilter.cpp:117-220 | Each literal/register combination appends its own pair of operands and scalars, two literals leaving the right side out |
| `LogicalFilter.PlanVectors.PushUnary` | src/LogicalFilter.cpp:221-243 | A register operand is appended with -1 beside it; a literal appends nothing but the operator |
| `LogicalFilter.PopOperand` | src/LogicalFilter.cpp:102-115 | Popping a temporary frees exactly its position; inputs and literals free nothing |
| `LogicalFilter.PushTemporary` | src/LogicalFilter.cpp:252-258 | The new temporary is start plus the number of live ones, distinct from all of them and from inputs and outputs |
| `LogicalFilter.ProcessToken` | src/LogicalFilter.cpp:96-266 | One token takes stack, free positions and vectors to the next state of the token machine, live temporaries staying start, start + 1, ... from the bottom of the stack up |
| `LogicalFilter.AddExpressionToPlan` | src/LogicalFilter.cpp:44-267 | The whole loop appends what the token machine emits |
| `ExpressionCompiler.PlanIsCompiled` | src/LogicalFilter.cpp:82-266 | On the tokens of any operator expression the token machine never pops an empty stack and emits exactly the code of a recursive compiler: right operand, left operand, operator |
| `ExpressionCompiler.AlignedIff` | src/LogicalFilter.cpp:117-243 | The instruction vectors stay parallel if and only if no operator of the expression has only literal operands |
| `ExpressionCompiler.NeedAtMostHeight` | src/LogicalFilter.cpp:89-92 | The temporaries an expression needs are at most its height |
| `ExpressionCompiler.SubexpressionDelivers` | src/LogicalFilter.cpp:82-266 | Any subexpression's code delivers its value to where its operand says, and changes no input, no output and no live temporary |
| `ExpressionCompiler.CompileComputes` | src/LogicalFilter.cpp:82-266 | Running the emitted code from any register file that holds the referenced columns leaves the expression's value in the output register, and fails if and only if a COALESCE or null test has no column to probe; outputs that reuse an operand's register included |
| `RegisterUse.PeakIsHighest` | src/LogicalFilter.cpp:89-115 | In any run of the token machine the highest temporary written is start plus the largest number of simultaneously live temporaries minus 1 |
| `RegisterUse.OutputBounds` | src/LogicalFilter.cpp:249-258 | All outputs lie below start plus the need, that bound is reached, and -1 is among them exactly if start plus the need exceeds 512 |
| `RegisterUse.AllocationIsTight` | src/LogicalFilter.cpp:249-258 | The peak of live temporaries equals the need of the expression and is at most its height; the highest register used is start + peak - 1; -1 is emitted if and only if they do not fit in 512 positions |
| `Projection.MarkUsed` | src/CalciteInterpreter.cpp:161-184 | A column is marked if and only if some computed expression mentions it |
| `Projection.CompactColumns` | src/CalciteInterpreter.cpp:190-201 | An order-preserving bijection between the used columns and 0, 1, ...; -1 for the others |
| `Projection.ParseProjectPlan` | src/CalciteInterpreter.cpp:123-309 | Output k is register inputs + k, the program is the concatenation of all expressions' code over one register file, and every item knows its final column or its input column |
| `Projection.ProgramsCompute` | src/CalciteInterpreter.cpp:221-290 | The concatenated program leaves every expression's value in its own output register: no expression disturbs another's inputs or result |
| `Projection.RegisterFileSuffices` | src/Interpreter/interpreter_cpp.cu:235-251 | One register more than the largest output register is enough for every temporary the program uses |
| `Projection.ProjectionRuns` | src/CalciteInterpreter.cpp:123-309 | With the used columns loaded the whole program runs in a register file of that size |
| `Projection.ProbeFailsIff` | src/CalciteInterpreter.cpp:311-336 | A projection fails if and only if some computed expression applies COALESCE or a null test to something that is not a column |
| `Projection.ProjectionComputes` | src/CalciteInterpreter.cpp:123-336 | For every row: each projected item's value is in its final position after the run, and the run fails only on such a probe |
| `InstructionEncoding.CompiledEncoded` | src/LogicalFilter.cpp:117-243 | Every instruction of a compiled expression has register numbers from 0 on, -1 for the missing operand of a unary operation and no binary operator beside it, -2 for a scalar and -3 for the scalar null, and no unary operator beside a binary one |
| `FilterStencil.ValueOfFormula` | src/CalciteExpressionParsing.cpp:540-556 | The integer computed for a formula is nonzero if and only if the formula is true |
| `FilterStencil.FaithfulIff` | src/CalciteInterpreter.cpp:516-543 | The stored byte agrees with the condition for all outcomes of its comparisons if and only if the sums and products of its shape allow for no positive multiple of 256 |
| `FilterStencil.StencilFaithful` | src/CalciteInterpreter.cpp:516-543 | A safe shape is enough on every row for every condition, columns compared more than once included |
| `FilterStencil.SmallIsSafe` | src/CalciteInterpreter.cpp:516-543 | A bound of at most 255, by the same sums and products, makes a shape safe |
| `FilterStencil.StencilLosesRow` | src/CalciteInterpreter.cpp:516-543 | A true comparison joined with itself 256 times by OR is true and its byte is 0 |
| `FilterStencil.KeptInRange` | src/CalciteInterpreter.cpp:538 | The kept row numbers are exactly the rows with a nonzero, valid stencil, ascending |
| `FilterStencil.Frame.ProcessFilter` | src/CalciteInterpreter.cpp:509-568 | Every column is gathered by the same row numbers, those the stencil keeps, in order |
| `FilterStencil.EvalIsUnder` | src/CalciteExpressionParsing.cpp:540-556 | The compiled integer is what sums and products make of the outcomes of the comparisons and null tests, and the condition's truth is what AND, OR and NOT make of them |
| `FilterStencil.MaskOfFormula` | src/Interpreter/interpreter_ops.cuh:508-566 | The validity pass marks a row valid exactly if no comparison of the condition has a null on either side and no null test meets one |
| `FilterStencil.FilterKeepsTrueRows` | src/CalciteInterpreter.cpp:509-568 | A compiled condition of safe shape keeps exactly the rows on which it is true and no comparison or null test meets a bit that the kernel has loaded as null, in their order |
| `ValidityLoads.LoadsAreNulls` | src/Interpreter/interpreter_ops.cuh:1312-1327 | Without any null test in the condition, what the validity pass loads are the nulls of the row |
| `ValidityLoads.LoadsBesideTest` | src/Interpreter/interpreter_ops.cuh:1312-1327 | A null test of column 0 beside a comparison of columns 1 and 2 is operation 1, so that column 1 is loaded as all valid and column 0 is not |
| `ValidityLoads.LoadsPastOperators` | src/Interpreter/interpreter_ops.cuh:1312-1327 | A comparison of two columns loads its second column as all valid exactly if what lies behind the list of operators looks like a null test |
| `SqlStates.MaskedIsExplained` | src/Interpreter/interpreter_ops.cuh:508-566 | When the mask is set, an unknown verdict means that the condition can sneak, and a known one that the condition can come out so |
| `SqlStates.CompleteIsMasked` | src/Interpreter/interpreter_ops.cuh:508-566 | When a complete condition has the verdict wanted, its mask is set |
| `SqlStates.StatesIff` | src/CalciteInterpreter.cpp:516-543 | For every condition and every set of columns loaded as valid: over all states of its comparisons and null tests the filter agrees with SQL if and only if the condition is complete and nothing sneaks in, which its shape and the set tell |
| `SqlFilter.FaithfulOnRowsIff` | src/CalciteInterpreter.cpp:516-543 | When no column is looked at twice, all rows of a table have the right byte if and only if the shape allows for no positive multiple of 256 |
| `SqlFilter.StatesMean` | src/CalciteInterpreter.cpp:516-543 | SQL's value, the truth of the data and the mask on a row are the result of the states of its comparisons and null tests, which are legal ones |
| `SqlFilter.RowAgrees` | src/CalciteInterpreter.cpp:516-543 | On every row: a complete condition loses nothing SQL says yes to, and one that lets nothing sneak in keeps nothing else |
| `SqlFilter.SqlOnRowsIff` | src/CalciteInterpreter.cpp:516-543 | When no column is looked at twice, the filter agrees with SQL on all rows if and only if the condition is complete and nothing sneaks in |
| `SqlFilter.GuardedIsComplete` | src/CalciteInterpreter.cpp:516-543 | When nothing is loaded as valid, a condition of columns is complete if and only if it is guarded: no OR and no IS NULL where it has to be true, no AND and no IS NOT NULL where, under NOT, it has to be false |
| `SqlFilter.FilterIsSql` | src/CalciteInterpreter.cpp:509-568 | With what the kernel loads for its program: a filter keeps no row SQL does not say yes to if nothing sneaks in, and all of them if the condition is complete |
| `SqlFilter.FilterWithoutNullTests` | src/CalciteInterpreter.cpp:509-568 | Without null tests, every row kept is one SQL says yes to, and a guarded condition keeps them all |
| `SqlFilter.NullTestAlone` | src/Interpreter/interpreter_ops.cuh:1312-1327 | IS NULL or IS NOT NULL of one column filters as SQL demands, on every row |
| `SqlFilter.MisplacedLoad` | src/Interpreter/interpreter_ops.cuh:1312-1327 | $0 IS NOT NULL AND $1 > $2 is guarded, and yet keeps a row with a null in column 1 on which SQL's value is unknown |
| `SqlFilter.TestAsOperandIsLost` | src/Interpreter/interpreter_ops.cuh:820-830 | A null test as operand of a comparison has a value in SQL, but where its column is null the row is not kept, so such conditions do not filter as SQL demands |
| `TextToValue.TextComputes` | src/LogicalFilter.cpp:44-267 | From text to value: the program made from the tokens of the cleaned text leaves the value of the left-nested expression in the output register |
| `WhereClause.FormulaIsTyped` | src/CalciteExpressionParsing.cpp:629-694 | The text with its connectives made binary compiles to the product and sum formula of the condition |
| `WhereClause.FormulaMeans` | src/CalciteExpressionParsing.cpp:629-694 | That formula is true, and has its mask set, exactly if the condition as written is true and meets no null, AND of any number of conditions meaning all and OR any |
| `WhereClause.FormulaSqlMeans` | src/CalciteExpressionParsing.cpp:629-694 | Nesting AND and OR of any number of conditions to the left does not change what SQL says of them |
| `WhereClause.GuardedMeans` | src/CalciteExpressionParsing.cpp:629-694 | Whether the compiled condition is guarded can be read off the text |
| `WhereClause.WhereKeepsTrueRows` | src/CalciteInterpreter.cpp:509-568 | From the text of a WHERE condition of any arity to the rows: those kept are those on which the condition as written is true and no comparison or null test meets a bit loaded as null, if its shape is safe |
| `WhereClause.WhereIsSql` | src/CalciteInterpreter.cpp:509-568 | From the text, with what the kernel loads for its program: nothing is kept that SQL does not say yes to if nothing sneaks in, and everything it says yes to if the condition is complete |
| `WhereClause.WhereWithoutNullTests` | src/CalciteInterpreter.cpp:509-568 | From a text without null tests: nothing is kept that SQL does not say yes to, and everything it does when the text is guarded |
| `Tables.KeyTotal` | src/distribution/primitives.cpp:444-447 | Any two keys are comparable, nulls being the largest values |
| `Tables.KeyTransitive` | src/distribution/primitives.cpp:444-447 | The order of keys is transitive |
| `Tables.KeyAntisymmetric` | src/distribution/primitives.cpp:444-447 | Keys not beyond each other are equal |
| `Tables.Sort` | src/operators/OrderBy.cpp:42-75 | A permutation of the table in which the first key column ascends with nulls at the end, and among rows with equal cells the next key column decides |
| `Tables.UpperBound` | src/distribution/primitives.cpp:444-447 | The position that separates the rows not beyond the key from those beyond it |
| `Tables.Merge` | src/distribution/primitives.cpp:520 | A permutation of two sorted tables together, ascending cell by cell in the same way |
| `Tables.KeyOrder` | src/distribution/primitives.cpp:444-447 | One key comes before another of its length exactly if they are equal or, at the first position where they differ, its value is a number and the other's is larger or null |
| `Tables.SortedAscends` | src/operators/OrderBy.cpp:42-75 | Being sorted by key is the same as ascending cell by cell, nulls at the end, later columns deciding among equals |
| `RangePartition.PivotsInBounds` | src/distribution/primitives.cpp:264-275 | The gathered positions lie in the sample if and only if the sample has a row, for any number of nodes, more nodes than rows included |
| `RangePartition.Gather` | src/distribution/primitives.cpp:264-275 | The pivots, row by row, are the sampled rows at the given positions, hence ascending |
| `RangePartition.GeneratePartitionPlans` | src/distribution/primitives.cpp:170-285 | N - 1 pivots for N nodes, at every step-th position of the sorted samples of all nodes, sorted |
| `RangePartition.PartMonotone` | src/distribution/primitives.cpp:389-452 | A larger key never goes to an earlier part, sorted pivots or not |
| `RangePartition.UpperBounds` | src/distribution/primitives.cpp:444-447 | For every row the number of upper bounds at or before it is the number of pivots strictly below its key |
| `RangePartition.SortIndices` | src/distribution/primitives.cpp:450 | Sorting the split points changes none of these counts |
| `RangePartition.Split` | src/distribution/primitives.cpp:319-342 | N parts that concatenate to the table, row r in the part numbered by the split points at or before r |
| `RangePartition.SplitIsPartition` | src/distribution/primitives.cpp:389-452 | Every row lands in the part numbered by how many pivots are strictly below its key, and the parts are sorted and keep the rows |
| `RangePartition.CheckPivots` | src/distribution/primitives.cpp:350-375 | Accepts exactly pivots with one column per search column and N - 1 rows each, and says which check failed first |
| `RangePartition.PartitionData` | src/distribution/primitives.cpp:345-453 | Fails exactly when the pivots do not fit; otherwise a range partition of the table, sorted first if it was not, whose parts concatenate to a sorted table |
| `Exchange.StepInv` | src/distribution/primitives.cpp:455-500 | Every send, receipt and end of round keeps the invariant: each message sent is in exactly one queue or held by exactly one node, its owner |
| `Exchange.RunInv` | src/distribution/primitives.cpp:455-500 | The invariant holds in every state of every run |
| `Exchange.Progress` | src/distribution/primitives.cpp:455-500 | No deadlock: unless all nodes have finished, some step can be taken |
| `Exchange.MaximalRunsFinish` | src/distribution/primitives.cpp:455-500 | Every run that cannot be continued has finished, after the same number of steps whatever the interleaving |
| `Exchange.AllDelivered` | src/distribution/primitives.cpp:455-500 | At the end all queues are empty and every node holds every part meant for it exactly once |
| `Exchange.OneRoundDelivers` | src/distribution/primitives.cpp:455-500 | With one round, every interleaving delivers exactly the parts of that round to each owner |
| `Exchange.RunInRound` | src/operators/JoinOperator.cpp:196-277 | All messages are held in their own round if and only if every receipt so far was of the receiver's round |
| `Exchange.CanFinish` | src/distribution/primitives.cpp:455-500 | Every state of every run can be run to the end, keeping what was collected before, right or wrong |
| `Exchange.RoundsCorrectIff` | src/operators/JoinOperator.cpp:196-237 | A finished run has the right parts in the right rounds if and only if no node ever took a message of another round than its own |
| `Exchange.SomeRunMixes` | src/operators/JoinOperator.cpp:196-237 | For any two or more nodes, any parts and any number of rounds from two on, some finished run holds a message in the wrong round |
| `Exchange.AlwaysCorrectIff` | src/operators/JoinOperator.cpp:196-237 | All finished runs of a query have the right parts in the right rounds if and only if the query has at most one round |
| `Exchange.TimelyProgress` | src/operators/JoinOperator.cpp:196-237 | As long as nothing is out of its round, some step can be taken that keeps it so |
| `Exchange.SomeRunIsCorrect` | src/operators/JoinOperator.cpp:196-237 | Whatever the number of rounds, some run ends with all parts in their rounds |
| `Exchange.RoundsCanMix` | src/operators/JoinOperator.cpp:196-237 | With three nodes the rounds mix even if every node takes each sender's messages in the order sent: a node ends with both messages of its first round from the same sender |
| `Exchange.BarrierIsCorrect` | src/operators/OrderBy.cpp:115-137 | If nobody starts sending in a round before everybody has finished the rounds before, as the pivots of sort and aggregation see to, any number of rounds ends with all parts in their rounds |
| `Exchange.BarrierProgress` | src/operators/OrderBy.cpp:115-137 | Behind the barrier no run gets stuck |
| `Shuffle.RowsInAnyOrder` | src/distribution/primitives.cpp:473-500 | The rows collected do not depend on the order of arrival |
| `Shuffle.CollectedRows` | src/distribution/primitives.cpp:473-500 | A node collects the rows of the others' parts for it, all of them, once |
| `Shuffle.ShuffleDelivers` | src/distribution/primitives.cpp:473-500 | With its own part added, a node holds every node's rows for it, once each |
| `Shuffle.MergedPart` | src/distribution/primitives.cpp:473-500 | Everything a node merges is some node's part for it |
| `Shuffle.ShuffleConserves` | src/distribution/primitives.cpp:455-500 | If each node cut up its own table, the nodes together still hold every row of the cluster exactly once |
| `DistributedSort.SortAndPartition` | src/operators/OrderBy.cpp:93-133 | The node's sorted rows cut at the pivots, or the error of the pivot checks |
| `DistributedSort.MergeReady` | src/operators/OrderBy.cpp:135-144 | Every part a node merges is sorted, as the merge demands |
| `DistributedSort.SortedMerger` | src/distribution/primitives.cpp:502-533 | Merging sorted parts one by one, empty ones skipped, gives a sorted permutation of all of them |
| `DistributedSort.RowsInPlace` | src/operators/OrderBy.cpp:93-145 | Each row a node ends up with belongs to it by its key |
| `DistributedSort.DistributedSortCorrect` | src/operators/OrderBy.cpp:93-145 | For all tables, pivots, node counts and interleavings: the nodes' results in node order are a permutation of all rows in which the first key column ascends with nulls at the end and the next one decides among equals |
| `DistributedSort.SortedAsOnOneNode` | src/operators/OrderBy.cpp:77-145 | The keys come out in the same order as from the single-node sort |
| `GroupBy.ResultConcat` | src/operators/GroupBy.cpp:352-433 | An aggregate over two tables is the combination of the two aggregates, with null as the value of nothing |
| `GroupBy.ResultInAnyOrder` | src/operators/GroupBy.cpp:198-229 | The order of the rows does not matter to an aggregate |
| `GroupBy.GroupsInAnyOrder` | src/operators/GroupBy.cpp:198-229 | The order of the rows does not matter to the groups |
| `GroupBy.ExtremeMeans` | src/operators/GroupBy.cpp:198-229 | MIN and MAX are a value of the group that no other is beyond, and null exactly if there is none |
| `GroupBy.AggregationsWithGroupBy` | src/operators/GroupBy.cpp:198-229 | One row for every key that occurs, once, with the key's aggregates |
| `GroupBy.AggregationsWithoutGroupBy` | src/operators/GroupBy.cpp:231-296 | One row of the aggregates of all rows; over no rows SUM, MIN and MAX are null and COUNT is 0 |
| `GroupBy.ComputeAggregations` | src/operators/GroupBy.cpp:298-349 | Grouped or not, depending on whether there are group columns |
| `GroupBy.AggregationsMerger` | src/operators/GroupBy.cpp:352-433 | The non-empty parts together, aggregated with COUNT turned into SUM over the leading key columns; an empty result if all parts are empty |
| `GroupBy.CountMeans` | src/operators/GroupBy.cpp:198-229 | COUNT is the number of the group's rows with a value in the column |
| `GroupBy.SumMeans` | src/operators/GroupBy.cpp:198-229 | SUM is the sum of the group's values, and null exactly if there is none |
| `DistributedGroupBy.MergeOne` | src/operators/GroupBy.cpp:352-433 | Re-aggregating one node's partial results gives them back: COUNT by SUM, the others by themselves |
| `DistributedGroupBy.MergeAll` | src/operators/GroupBy.cpp:352-433 | Re-aggregating all nodes' partial results gives the aggregates of all rows |
| `DistributedGroupBy.NodeHasGroup` | src/operators/GroupBy.cpp:447-503 | The node a key belongs to receives all there is of the group anywhere |
| `DistributedGroupBy.NodeResult` | src/operators/GroupBy.cpp:447-503 | What a node computes from the parts for it is exactly the cluster's groups that belong to it, with their global values |
| `DistributedGroupBy.NodeOutput` | src/operators/GroupBy.cpp:447-503 | The same in every run of the exchange |
| `DistributedGroupBy.DistributedGroupByCorrect` | src/operators/GroupBy.cpp:447-503 | For all tables, pivots, node counts and interleavings: the nodes' results together are the single-node result, each group once |
| `DistributedGroupBy.GeneratePartitionPlansGroupBy` | src/distribution/primitives.cpp:535-713 | N - 1 sorted pivots at every step-th position of the sorted distinct keys of the samples |
| `DistributedGroupBy.AggregateAndPartition` | src/operators/GroupBy.cpp:485-491 | The node's groups, once each, cut at the pivots by their leading key columns |
| `DistributedGroupBy.TotalsMerge` | src/operators/GroupBy.cpp:505-530 | Merging the nodes' ungrouped rows gives the aggregates of all rows, nodes without rows included |
| `DistributedGroupBy.DistributedTotalsCorrect` | src/operators/GroupBy.cpp:505-530 | For all tables and in every interleaving of sends and receipts, the master's row is the one of all rows |
| `MasterCollects.StepInv` | src/operators/GroupBy.cpp:505-530 | Every send and receipt keeps the invariant: what was sent to the master waits there or has been taken |
| `MasterCollects.Progress` | src/operators/GroupBy.cpp:505-530 | Until the master has a part from everybody else, some step can be taken |
| `MasterCollects.MasterHasAll` | src/operators/GroupBy.cpp:505-530 | In every interleaving the master ends up with all parts, each once |
| `JoinCondition.ParseJoinCondition` | src/JoinProcessor.cpp:56-98 | Fails exactly on an operator other than = and AND; otherwise the operands on the stack are popped in pairs, as many as there are equalities; it fails exactly if some operator is another one |
| `JoinCondition.PopPairs` | src/JoinProcessor.cpp:84-97 | Each pair comes out with the smaller index first, the pair popped last at the end |
| `JoinCondition.ConditionParses` | src/JoinProcessor.cpp:56-98 | For the words of any conjunction of equalities, read in reverse, the parser yields its equalities in their order, smaller index first |
| `JoinCondition.LocalIndices` | src/operators/JoinOperator.cpp:217-237 | Every table gets the global indices that fall among its own columns, in order, counted from its first column |
| `JoinCondition.CrossingAligns` | src/operators/JoinOperator.cpp:217-237 | If every equality relates a left and a right column, the left list holds the first columns of the pairs and the right list the second ones |
| `JoinCondition.AlignedIffCrossing` | src/operators/JoinOperator.cpp:217-237 | The two lists are aligned pair by pair if and only if every equality relates a left and a right column |
| `JoinCondition.CrossesIff` | src/JoinProcessor.cpp:91-96 | The parsed column list has the left table's column first in every pair if and only if every equality of the condition relates the two tables, in whichever order it names them |
| `JoinCondition.SupportedIff` | src/JoinProcessor.cpp:56-98 | The condition is accepted exactly if all its operators are = and AND |
| `DistributedJoin.EvaluateJoin` | src/operators/JoinOperator.cpp:89-148 | All pairs of matching rows, once each; nothing when a side is empty |
| `DistributedJoin.JoinedInAnyOrder` | src/operators/JoinOperator.cpp:89-148 | The join depends on its sides as multisets of rows only |
| `DistributedJoin.JoinByParts` | src/operators/JoinOperator.cpp:217-277 | If rows of different parts never match, joining part by part is joining everything |
| `DistributedJoin.HashPartition` | src/distribution/primitives.cpp:905-913 | Rows part by part with the offset at which each part begins, row order kept within a part |
| `DistributedJoin.GenerateJoinPartitions` | src/distribution/primitives.cpp:848-934 | N parts that keep the rows of the table, every row in the part its key hashes to, empty tables included |
| `DistributedJoin.MatchSameKey` | src/operators/JoinOperator.cpp:196-237 | Matching rows have equal keys, each key read from its own table by its own local indices |
| `DistributedJoin.SideKept` | src/operators/JoinOperator.cpp:196-215 | After its round a side is still held once, all of it, by the nodes together |
| `DistributedJoin.SideInPlace` | src/operators/JoinOperator.cpp:196-215 | Every row a node holds then hashes to that node |
| `DistributedJoin.DifferentNodes` | src/operators/JoinOperator.cpp:196-277 | Rows held by different nodes never match |
| `DistributedJoin.RoundsDelivered` | src/operators/JoinOperator.cpp:196-277 | In every finished run in which no node takes a message of another round, both sides are delivered |
| `DistributedJoin.MatchesMeans` | src/operators/JoinOperator.cpp:89-104 | Two rows match by the parsed column list exactly if together they satisfy the condition |
| `DistributedJoin.DistributedJoinCorrect` | src/operators/JoinOperator.cpp:196-277 | With a crossing column list and both sides delivered, the nodes' results together are the single-node join as a multiset |
| `DistributedJoin.DistributedJoinMeans` | src/operators/JoinOperator.cpp:196-277 | For every condition whose equalities relate the two tables, all tables, hash functions, node counts and runs without untimely receipts: the nodes' results are the pairs of rows that satisfy the condition, each once |
| `JoinText.ConditionMeans` | src/JoinProcessor.cpp:56-98 | A text of equalities under AND of any arity holds of a row, and relates the two tables, exactly if its binary condition does |
| `JoinText.TextIsWords` | src/JoinProcessor.cpp:66-82 | The tokens of the cleaned text are the words of the condition in the order the parser reads them |
| `JoinText.DistributedJoinOfText` | src/operators/JoinOperator.cpp:196-277 | From the text of the join condition: in every run without untimely receipts the nodes' results are the pairs of rows that satisfy the text, each once, if its equalities relate the two tables |
| `PlanTree.Find` | src/CalciteInterpreter.cpp:44-76 | Whether the needle occurs anywhere in the line |
| `PlanTree.KindOfLine` | src/CalciteInterpreter.cpp:44-98 | Indentation never changes what kind of node a line is |
| `PlanTree.CountPairs` | src/CalciteInterpreter.cpp:635-639 | The depth of a line counted by looking at every other character |
| `PlanTree.FindSplit` | src/CalciteInterpreter.cpp:633-644 | The last line from index 2 on at relative depth one, or 2 |
| `PlanTree.SplitAtLast` | src/CalciteInterpreter.cpp:633-644 | If a line is at relative depth one and none behind it is, the query is split there, however deep the lines between are |
| `PlanTree.SplitRecovers` | src/CalciteInterpreter.cpp:633-668 | For every printed two-child node the split gives back exactly the lines of its two subtrees |
| `PlanTree.EvaluationIsMeaning` | src/CalciteInterpreter.cpp:600-729 | Evaluating the lines of any printed plan of scans, one- and two-child nodes gives the plan's meaning, first failure included |
| `PlanTree.EvaluateSplitQuery` | src/CalciteInterpreter.cpp:600-729 | The recursion on slices terminates on any lines and computes the evaluation that the round trip is about |
| `PlanTree.KindByName` | src/CalciteInterpreter.cpp:33-98 | Each of the eight names makes a line, whatever stands around it, one that takes no, one or two inputs |
| `PlanTree.KindsApart` | src/CalciteInterpreter.cpp:33-98 | No name by itself is taken for one that takes another number of inputs |
| `PlanTree.EveryLineKnown` | src/CalciteInterpreter.cpp:600-729 | Whatever lines evaluate, the last one is a scan and every one names what it is |
| `DistributedPlan.DoubleSpread` | src/CalciteInterpreter.cpp:669-688 | So do an inner join and a union of all |
| `DistributedPlan.SortedPlanOnNodes` | src/CalciteInterpreter.cpp:600-729 | And when the plan ends with a sort, the nodes' results in node order ascend by the sort columns, with the same keys in the same order as on one node |
| `DistributedPlan.SingleSpread` | src/CalciteInterpreter.cpp:690-727 | A filter, projection, sort or aggregation on rows spread over the nodes yields, spread over them, the rows it yields on one node; grouping without aggregates is by leading columns |
| `DistributedPlan.PlanOnNodes` | src/CalciteInterpreter.cpp:600-729 | For the text of every plan: when its evaluation succeeds on one node and on the cluster, each operator's exchange being its own, the nodes together have the rows of the one node |
| `ColumnOwnership.GDFRefCounter.RegisterColumn` | src/GDFCounter.cu:17-27 | A column that is not in the map enters it with count 1; nothing else changes |
| `ColumnOwnership.GDFRefCounter.DeregisterColumn` | src/GDFCounter.cu:29-39 | A registered column's count becomes 0 and it stays in the map |
| `ColumnOwnership.GDFRefCounter.Increment` | src/GDFCounter.cu:41-51 | Only a registered, non-zero count is raised |
| `ColumnOwnership.GDFRefCounter.Free` | src/GDFCounter.cu:74-92 | A registered column is deallocated and leaves the map, whatever its count |
| `ColumnOwnership.GDFRefCounter.Decrement` | src/GDFCounter.cu:94-118 | A positive count is lowered; at 0 the column is deallocated and leaves the map |
| `ColumnOwnership.GdfColumnCpp.Copy` | src/GDFColumn.cu:33-55 | A copy shares the column and raises its count |
| `ColumnOwnership.GdfColumnCpp.Assign` | src/GDFColumn.cu:117-132 | The old column's count is lowered and the new one's raised, nothing between handles to the same column |
| `ColumnOwnership.GdfColumnCpp.CreateGdfColumn` | src/GDFColumn.cu:258-299 | The old column's count is lowered and the new column registered |
| `ColumnOwnership.GdfColumnCpp.CreateGdfColumnForIpc` | src/GDFColumn.cu:175-203 | The old column's count is lowered; the new column is not counted |
| `ColumnOwnership.GdfColumnCpp.Wrap` | src/GDFColumn.cu:340-367 | A raw column the handle has already changes nothing; any other is registered in place of the old one |
| `ColumnOwnership.GdfColumnCpp.Destroy` | src/GDFColumn.cu:461-471 | The column's count is lowered unless it came over IPC |
| `ColumnOwnership.ActionInv` | src/GDFCounter.cu:17-118 | Every handle and counter action keeps the ownership invariant |
| `ColumnOwnership.RunInv` | src/GDFCounter.cu:17-118 | The invariant holds at every moment of every run |
| `ColumnOwnership.CountIsOwners` | src/GDFCounter.cu:17-118 | In every run a registered non-zero count is the number of live non-IPC handles to the column |
| `ColumnOwnership.NoDoubleDeallocation` | src/GDFCounter.cu:74-118 | In every run no column is deallocated twice |
| `ColumnOwnership.DropIsLast` | src/GDFCounter.cu:94-118 | Giving up a handle deallocates a column if and only if it is registered, was not deregistered and that handle is its only owner |
| `ColumnOwnership.DeallocatedOnlyUnowned` | src/GDFCounter.cu:94-118 | Other than by `free`, a column is deallocated only when its count was 1, so not while deregistered, and no live handle owns it afterwards |
| `ColumnOwnership.DanglesIffFreed` | src/GDFCounter.cu:74-92 | A live handle is left with a deallocated column if and only if `free` was called for the column while it was registered |
| `ColumnOwnership.NothingLeaks` | src/GDFCounter.cu:94-118 | When all handles are gone only deregistered columns are left in the map |
| `ColumnOwnership.DeregisteredIff` | src/GDFCounter.cu:29-39 | In every run a column has count 0 exactly if it was deregistered while registered and `free` was not called since, and then it is not deallocated, whatever handles come and go |
| `ColumnOwnership.GivenBackIff` | src/GDFCounter.cu:94-118 | When all handles are gone, a column once registered has been deallocated if and only if it was not left to others by deregistering it |
| `ColumnOwnership.WrapCountsIff` | src/GDFCounter.cu:17-27 | Registering a raw column that is registered already does not count its new owner: the counts stay right if and only if nobody else owns it or it was deregistered |
| `ColumnOwnership.IpcHandleLeavesColumn` | src/GDFColumn.cu:461-471 | Giving up a handle that has a column over IPC leaves it to the handle that wrapped the raw column |
| `ColumnCache.GdfParser.GetColumnIndicesNotAlreadyLoaded` | src/io/data_parser/ParserUtil.cpp:9-29 | The requested indices whose names are not cached for the file, in request order, repetitions included |
| `ColumnCache.GdfParser.GetColumnsThatWereAlreadyLoaded` | src/io/data_parser/ParserUtil.cpp:32-61 | The second pass takes cached names from the cache and others from the front of the loaded queue; only this file's cache changes |
| `ColumnCache.GdfParser.Parse` | src/io/data_parser/GDFParser.cpp:41-104 | The two passes in sequence, with one output column for each column named, or for each column of the file if none is named; other files' caches stay as they were |
| `ColumnCache.StepByStep` | src/io/data_parser/ParserUtil.cpp:32-61 | From any point of the second pass on, the rest of the output is right if and only if the requests keep in step with the queue |
| `ColumnCache.RepeatedRequestMisleads` | src/io/data_parser/GDFParser.cpp:52-103 | Asking for a, a, b with nothing cached puts out a, a, a |
| `ColumnCache.CacheIsFirstLoaded` | src/io/data_parser/GDFParser.cpp:52-103 | After every run of calls with distinct requests, each cache entry is the column first loaded under its file and name |
| `ColumnCache.OutputRightIff` | src/io/data_parser/GDFParser.cpp:52-103 | A call's output, the default request for all columns included, is right in every position if and only if no name that must be loaded follows one that must be loaded and was requested before |
| `ColumnCache.OutputIsFirstLoaded` | src/io/data_parser/GDFParser.cpp:52-103 | Every call puts out one column for each index it names, in that order, or all columns of the file in file order if it names none, each the one first loaded under its file and name |
| `ColumnCache.CacheAgreesWithLoading` | src/io/data_parser/GDFParser.cpp:52-103 | If files do not change, every output column is what loading the named column, or the column at that place if none is named, would give without cache |
| `BitMask.BitAfterSet` | src/ColumnManipulation.cu:47-52 | Clearing a bit of a 32-bit word and or-ing the shifted value in sets that bit and leaves the others as they were |
| `BitMask.BitIsDigit` | src/ColumnManipulation.cu:45-50 | Bit i of a word is its binary digit of weight 2^i, the parity after i halvings |
| `ValidityGather.StepInv` | src/ColumnManipulation.cu:25-68 | Each write by any thread keeps the invariant: words written so far are right and written once, the others untouched |
| `ValidityGather.RunInv` | src/ColumnManipulation.cu:25-68 | The invariant holds in every state of every interleaving |
| `ValidityGather.GatherCorrect` | src/ColumnManipulation.cu:25-68 | For any number of threads and any finished interleaving, each word with a row is written exactly once and right, and the other words are as they were |
| `ValidityGather.Progress` | src/ColumnManipulation.cu:25-68 | As long as a thread has a word left, a step can be taken |
| `ValidityGather.GatherBits` | src/ColumnManipulation.cu:25-68 | One thread alone writes exactly the words of its stride, correctly |
| `ValidityGather.GatherWord` | src/ColumnManipulation.cu:37-63 | All bits of a 32-bit word that have a row are the source rows' bits, or 0 for a negative index, whatever the register held before |
| `ValidityGather.RightWordDigits` | src/ColumnManipulation.cu:37-63 | Row by row in binary digits: digit b of output word t is digit i % 32 of source word i / 32 for the index i at 32 t + b, and 0 if that is negative |

## Left out

- LogicalFilter.PlanVectors.PushBinary: without the branch for string literals compared with a category column (src/LogicalFilter.cpp:150-194), whose scalars depend on device dictionaries; date literals are like other literals.
- The literal `null` in text: `is_operator_token` takes it for an operator (src/CalciteExpressionParsing.cpp:596-598), so trees with such a leaf are not among those that round-trip; unary minus is in neither operator map.
- Literals in text: no spaces, commas, parentheses, brackets or quotes outside a pair of single quotes, and within quotes no quote and, for the token round trip, no comma or parenthesis, which flattening removes or replaces in quotes too.
- Operator names that end in AND or OR without being one of them: the search for `AND(` would find them, and the planner's operators have none.
- CalciteText.GetExpressionsFromExpressionList: the variant without trimming, on text in which there is nothing left to replace; the replacements for CASE, CAST, EXTRACT and FLOOR (also src/CalciteExpressionParsing.cpp:708-720) are not modelled.
- StringUtil is not part of this model's sources: its split, quoted vector and search (`SplitNotInQuotes`, `GenerateQuotedVector`, `FindFirstNotInQuotes`) are modelled from how they are used.
- Operators with only literal operands: `AlignedIff` says that exactly these put the vectors out of step, and the theorems about running programs exclude them.
- Width and rounding of the kernel's arithmetic, type inference and casts between column types: arithmetic is a parameter of the machine.
- Packing validity masks of results into words: a row's mask is one bit of each register.
- Launch configuration: `calculate_grid` does nothing for more than 64 registers, which is outside the machine modelled here.
- Projection items that are literals, and aliases and names of projected columns: one-branch copies.
- FilterStencil.FaithfulIff: over unbounded integers; products of sums beyond 64 bits are not modelled.
- FilterStencil.FilterKeepsTrueRows: conditions built from comparisons and null tests of columns by AND, OR and NOT; a bare column as condition is copied (src/LogicalFilter.cpp:281-287) and not modelled. Where the kernel reads behind its list of operations (src/Interpreter/interpreter_ops.cuh:1314), what it finds there is a parameter.
- SqlFilter.FilterIsSql: not for comparisons whose operands are themselves null tests (`TestAsOperandIsLost`); exactness (`SqlOnRowsIff`) is for comparisons of columns in which no column is looked at twice.
- FastDivision.IntFastdiv.Divide: the host path; the device path is a single instruction for the high product, and the overloads for narrower and unsigned dividends only convert. `abs` of -2^31 is taken as 2^31, as the unsigned conversion makes it, and the one product that can leave 32 bits (`CorrectionFits`) is taken modulo 2^32.
- Tables are sequences of rows, not columns: the sort permutation and the gathers that apply it to each column are one step, and types, widths, names, and validity masks of columns are absent; null is a value, the largest.
- RangePartition.GeneratePartitionPlans: requires a sample row, because without one the source gathers out of bounds (`PivotsInBounds`).
- DistributedGroupBy.GeneratePartitionPlansGroupBy: requires a sample row for the same reason.
- Sampling ratios and `normalizeSamples`: the sort and group-by theorems hold for every choice of pivots.
- Descending keys in the distributed sort: the partitioning ignores them (src/distribution/primitives.cpp:395), so the theorem is about ascending keys.
- AVG and COUNT_DISTINCT in the distributed merge: AVG of averages is not the average, so neither is a member of `Op`.
- Grouping without aggregations over a cluster: indices of the input are used on the grouped table (src/operators/GroupBy.cpp:184), which is only right for leading columns, and then it is `DistributedGroupByCorrect` with no aggregates.
- GroupBy.ComputeAggregations: inputs are columns already, as after `evaluate_expression`; inputs that are expressions are not modelled.
- GroupBy.AggregationsMerger: of parts that are all empty the source returns the first, with its columns; here this is the empty table.
- Left and full joins: evaluation is skipped when a side is empty (src/operators/JoinOperator.cpp:91), so the theorem is about inner joins.
- JoinCondition.ParseJoinCondition: requires at least two operands for each equality, because the source takes the top of an empty stack otherwise.
- DistributedJoin.HashPartition: the hash is any function of the key; differences of hash between column types and the hashing of strings by category are not modelled.
- DistributedJoin.DistributedJoinMeans: speaks of runs in which no node takes a message of another round. Nothing in the source enforces that: with two rounds some runs are like this (`SomeRunIsCorrect`) and some never are (`AlwaysCorrectIff`).
- Network transport, serialisation, failures of nodes: a queue per node that gives out messages in any order.
- PlanTree.EvaluateSplitQuery: the operators are parameters, and where the source reads past the end of the lines the result is `MalformedPlan`.
- DistributedPlan.PlanOnNodes: which operator a line stands for, and the tables, are given by a catalog, and plans whose evaluation fails are left out. Every operator has an exchange of its own, while the source's queues are keyed by the query's token and the kind of message only (src/distribution/primitives.cpp:466, 484): for operators with a barrier `BarrierIsCorrect` says that this makes no difference, but joins and aggregations without groups have none, and by `AlwaysCorrectIff` a query with them can take a message of another operator's exchange.
- ColumnOwnership.RunInv: a raw column is wrapped only by a handle that has it already or when nobody else owns it, and identities are not reused; the mutex, exceptions during creation and the device memory of IPC columns are not modelled.
- `clone`, `create_empty` and the string and scalar variants of `create_gdf_column`: as far as ownership goes they are `CreateGdfColumn`.
- ColumnCache.GdfParser.Parse: what is read from the file is a parameter of the call; column tokens and handles from the Parquet and CSV readers are not modelled.
- ValidityGather.GatherBits: indices of four bytes and words of 32 bits; indices lie inside the source mask.
- Result repository, schemas, data providers, logging, timers, configuration and service entry points: plumbing.
