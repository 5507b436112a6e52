# Verified models of the planner, the index and the billing service

Dafny models of four parts of the repository, with proofs.  `dafny verify dfyconfig.toml` checks them all.

- **The query planner's expression graph.**  SQL expressions are lowered to a graph held in two
  parallel lists, rewritten by rules that only append nodes, and compacted.
  - `SqlValues`, `Operators`, `OperandOrder`: SQL values with three-valued logic as in section 8.12 of SQL-92
    (ISO/IEC 9075:1992), and what each operator computes.  `Fault` is the value of an expression that
    has none (wrong kinds or number of operands, division by zero); all operators are strict in it.
    Column values, LIKE, ILIKE, IN, SUB and DIV over other than two operands, and the operators the
    planner never looks into are parameters.
  - `ExpressionGraph`: a node stands for the expression it unfolds to; the relation needs no order on
    ids, because the rules break the order the parser appends in.
  - `PlannerGraph`, `SqlLowering`, `SqlMeaning`, `StringLiterals`: the mutable graph, the visitor that
    lowers expressions to it, what expressions mean, and the decoding of string literals.
  - `TreeRewrites`, `RewriteRules`, `RewriteSafety`: the rewrite rules on expressions, on the mutable
    graph, and over whole runs.
  - `GraphCompaction`, `NodeHashes`, `EdgeLists`: marking, numbering and copying reachable nodes;
    hashing; edge lists and reversal.
  - `PlannerPipeline`: lowering, rewriting and compaction together.
- **The static index** (`StageLayout`): a sorted array laid out in stages like the levels of a B-tree.
- **The order-statistic tree** (`TreeRotations`): rotations of nodes that refer to each other by position.
- **The billing service** (`BillingSession`): self-owning handlers driven by completions in any order.

Code that changes state is a class or a method with loops, proved against a specification function;
the lemmas are about that function.

## What the proofs found

- `reduce_not_nop_apply` turns a double NOT over a number or a string, which has no value, into the
  number or string itself (`ReduceGivesNumberAValue`).  That is the only case in which it changes a
  value.
- `merge_cummutative_numeric_apply` has no guard on the operator.  It merges `(a - b) - c` and
  `a - (b - c)` to the same node, so whatever a subtraction of three operands is taken to mean, it
  changes the value of one of them (`NoReadingRepairsMerge`).  The same holds of division.
- `demorgan_apply` cannot be applied to its own result when an operand was a NOT: the NOP this leaves
  has no opposite operator (`DeMorganTwiceStopsAtNot`).
- The order `visitedNodesOrder` gives puts children first exactly when marks rise along every edge,
  which a depth-first walk does not guarantee.  Hashes are right exactly when all nodes but the
  commutative ones come after their children (`VisitHashesRightExactly`); where they do not, nodes that
  stand for the same expression can get different hashes (`CleanHashesDiffer`).
- `demorgan_apply` is the only rule that breaks the order of ids the visitor appends in, and
  `RewriteKeepsOrderExactly` says when it does.
- `hashChildrenSet` looks at the number of children only, so all commutative nodes with equal records
  and equally many children collide.
- `get_stage_pos_items_count` inverts the rank of `get_idx_position` only near the front of a stage
  (`ItemsCountMissesItem`).

## Model

| member | source | states |
|---|---|---|
| `SqlValues.DeMorgan` | minion/planner/query/rules.h:45-63 | De Morgan's laws for any number of three-valued operands, both ways |
| `SqlValues.CompareNegation` | minion/planner/query/graph.h:64-75 | the order of numbers, strings and truth values is total, so each comparison is the negation of the opposite one |
| `Operators.NegationNegates` | minion/planner/query/graph.h:44-96 | the operator `getNegatedOperation` gives really negates, for every supported operator and all operands, if and only if it is not NOT over a number or a string; as a truth value it always negates |
| `Operators.NegationInvolutive` | minion/planner/query/graph.h:48-63 | negating twice gives the operator back, except for NOT: its opposite NOP has none |
| `Operators.NegatableExactly` | minion/planner/query/graph.h:44-96 | the 22 operators `getNegatedOperation` has an opposite for, written out |
| `OperandOrder.CommutativeExactly` | minion/planner/query/graph.h:98-122 | the planner calls commutative the six logical operators, ADD, MUL and the aggregates, and no others |
| `OperandOrder.CommutativeMeans` | minion/planner/query/graph.h:98-122 | all of them but the aggregates have the same value over the same operands in any order |
| `OperandOrder.OrderMatters` | minion/planner/query/graph.h:98-122 | SUB, DIV and the four comparisons by size are refused, and over 1 and 2 their value does depend on the order |
| `OperandOrder.SameUpToOrderSameValue` | minion/planner/query/graph.h:98-122 | expressions that are equal up to the order of commutative operands, at any depth, have the same value, aggregates aside |
| `ExpressionGraph.AcyclicIffUnfolds` | minion/planner/query/graph.h:39-41 | a graph with all child ids in range has a rank that falls along every edge if and only if every node unfolds to a finite expression |
| `ExpressionGraph.AcyclicIffNoCycle` | minion/planner/query/graph.h:39-41 | and if and only if no path comes back to where it started |
| `ExpressionGraph.RepresentsUnique` | minion/planner/query/graph.h:39-41 | a node stands for one expression only, whatever is shared below it |
| `ExpressionGraph.DenExtends` | minion/planner/query/graph.h:39-41 | appending nodes changes the value of no node that was there |
| `PlannerGraph.AppendRepresents` | minion/planner/query/graph.h:250-263 | a node appended over existing children keeps parents after children and stands for its operator over their expressions |
| `PlannerGraph.QueryGraph.AppendNode` | minion/planner/query/graph.h:250-263 | appends one record, always marked as a single value, and its row; returns the new id |
| `PlannerGraph.QueryGraph.AppendInt64Constant` | minion/planner/query/graph.h:161-174 | adds the constant to its table and a node that refers to it |
| `PlannerGraph.QueryGraph.AppendFloat64Constant` | minion/planner/query/graph.h:176-189 | the same for floating-point constants |
| `PlannerGraph.QueryGraph.AppendStringConstant` | minion/planner/query/graph.h:191-204 | the same for strings |
| `PlannerGraph.QueryGraph.AppendColumn` | minion/planner/query/graph.h:206-217 | adds the name and a column node that refers to it |
| `PlannerGraph.QueryGraph.AppendName` | minion/planner/query/graph.h:141-145 | adds a name and returns its index |
| `RewriteRules.CloneNode` | minion/planner/query/rules.h:10-19 | appends a copy of the record and the row of a node |
| `RewriteRules.DeMorganApply` | minion/planner/query/rules.h:45-83 | returns if and only if the node is an AND, OR, NAND or NOR and the operator of every child is one of the 22 with an opposite; grows the graph exactly as `DeMorganResult` says: a flipped parent, then one negated clone for each child up to the first that cannot be negated, whose plain clone is left behind by the exception |
| `RewriteRules.MergeCommutativeNumericApply` | minion/planner/query/rules.h:85-105 | appends one node whose row has the children of equal operator replaced by their own children |
| `RewriteRules.MergeCommutativeLogicApply` | minion/planner/query/rules.h:107-144 | the same for the logical operators, splicing AND, OR or XOR; on any other operator it throws and leaves a clone |
| `RewriteRules.ReduceNotNopApply` | minion/planner/query/rules.h:146-181 | returns the child of a NOP, a negated clone of the child of a NOT, and throws otherwise, with what it has appended by then |
| `RewriteRules.PullDfApplies` | minion/planner/query/rules.h:183-206 | true if and only if the node has a data frame, its children have exactly one between them, constants aside, and the two differ |
| `RewriteRules.PullDfApply` | minion/planner/query/rules.h:208-230 | appends a copy of the node with the first data frame found among its children; throws on a constant |
| `RewriteRules.RulesReturn` | minion/planner/query/rules.h:45-230 | on which nodes each rule returns, operator by operator |
| `RewriteRules.RulesAppend` | minion/planner/query/rules.h:10-230 | how many nodes each rule appends, also where it throws: De Morgan leaves the parent, the clones and one plain clone behind |
| `RewriteRules.FirstDfIsFirst` | minion/planner/query/rules.h:219-226 | the data frame pulled is that of the first child that is no constant, or 0 |
| `RewriteSafety.DeMorganGrowthSafe` | minion/planner/query/rules.h:69-81 | the parent gets a smaller id than each of its cloned children, and still an extended rank falls along every edge |
| `RewriteSafety.RewriteSafe` | minion/planner/query/rules.h:10-230 | every rule, on every node, thrown or not: old rows and records unchanged, all child ids in range, the graph acyclic, the returned node in range |
| `RewriteSafety.RewriteKeepsOrderExactly` | minion/planner/query/rules.h:10-230 | on a graph with parents after children a rule, returned or thrown, keeps that order of ids if and only if it is not De Morgan's rule on an operator it can flip with a first child that can be negated |
| `RewriteSafety.RunSafe` | minion/planner/query/rules.h:10-230 | the same over every finite run of rule applications, and every node that was there keeps its value under every interpretation |
| `RewriteSafety.RunKeepsWide` | minion/planner/query/rules.h:10-230 | no run of rules makes a sum, difference, product or quotient with fewer than two operands |
| `RewriteSafety.DeMorganRepresents` | minion/planner/query/rules.h:45-83 | the rule returns if and only if the operator and all its operands can be negated, and then the node stands for the flipped operator over the negated operands |
| `RewriteSafety.MergeRepresents` | minion/planner/query/rules.h:93-104 | the merged node stands for the flattened expression, shared and repeated children included |
| `RewriteSafety.ReduceRepresents` | minion/planner/query/rules.h:151-180 | the rule returns if and only if the node is a NOP over one operand or a NOT over one that can be negated, and what the node it returns stands for |
| `RewriteSafety.PullDfRepresents` | minion/planner/query/rules.h:208-230 | only the data frame of the node changes, not its operator or operands |
| `RewriteSafety.PullDfSettles` | minion/planner/query/rules.h:183-230 | where the check allows it the rule gives the node the data frame of its children, and the check then refuses the new node |
| `RewriteSafety.RewriteKeepsMeaning` | minion/planner/query/rules.h:45-230 | a rule that returns gives a node with the value of the original, for all five rules (the numeric merge on ADD and MUL); only the NOT/NOP rule needs the original to have a value |
| `RewriteSafety.DeMorganExactly` | minion/planner/query/rules.h:45-83 | on every node: the rule returns if and only if it is an AND, OR, NAND or NOR over children with one of the 22 operators, and then with a node of the same value under every interpretation |
| `RewriteSafety.MergeLogicExactly` | minion/planner/query/rules.h:107-144 | on every node: the rule returns if and only if the operator is one of the six logical ones, and then with a node of the same value under every interpretation |
| `RewriteSafety.MergeNumericMeaningExactly` | minion/planner/query/rules.h:85-105 | in every graph whose arithmetic nodes have their operands, which lowering and every run of rules guarantee, the unguarded numeric merge keeps the value of an arithmetic node under every interpretation, readings of SUB and DIV over many operands included, if and only if it is a sum or a product or no operand has its operator |
| `RewriteSafety.OptimisationKeepsMeaning` | minion/planner/query/rules.h:45-230 | any sequence of rules, each applied to the node the one before returned, ends with the value it started from |
| `RewriteSafety.DeMorganTwiceRestores` | minion/planner/query/rules.h:45-83 | applied to its own result the rule gives back an equal expression, or throws, the latter if and only if an operand is a NOT |
| `RewriteSafety.NotChainReduces` | minion/planner/query/rules.h:146-181 | a chain of k NOTs is gone after exactly k applications, leaving the expression for even k and its negation for odd k |
| `TreeRewrites.DeMorganKeepsValue` | minion/planner/query/rules.h:52-79 | De Morgan's rule keeps the three-valued result of AND, OR, NAND and NOR over any number of operands |
| `TreeRewrites.DeMorganTwice` | minion/planner/query/rules.h:52-79 | exactly when a second application is possible, and that it undoes the first |
| `TreeRewrites.DeMorganTwiceStopsAtNot` | minion/planner/query/rules.h:52-79 | a concrete case: (NOT x) AND y becomes (NOP x) NOR (not y), to which the rule cannot be applied again |
| `TreeRewrites.MergeLogicKeepsValue` | minion/planner/query/rules.h:107-144 | flattening keeps the three-valued result for all six logical operators |
| `TreeRewrites.MergeLogicFlattens` | minion/planner/query/rules.h:114-141 | an AND among the operands of an AND or NAND is replaced by its operands in place, and so for OR and NOR, XOR and XNOR; operands of other operators stay |
| `TreeRewrites.MergeNumericKeepsValue` | minion/planner/query/rules.h:85-105 | flattening sums and products keeps their value |
| `TreeRewrites.MergeNumericExactly` | minion/planner/query/rules.h:85-105 | the same on expressions: on an ADD, SUB, MUL or DIV over two or more operands the numeric merge keeps the value under every interpretation if and only if the operator is ADD or MUL or nothing is spliced |
| `TreeRewrites.MergeForgetsGrouping` | minion/planner/query/rules.h:93-104 | (a op b) op c and a op (b op c) are merged to the same node, whatever the operator |
| `TreeRewrites.GroupingMatters` | minion/planner/query/rules.h:93-104 | the two groupings of a subtraction or a division of numbers, and exactly when they agree: the last operand 0; the first 0, or the last 1 or -1 |
| `TreeRewrites.NoReadingRepairsMerge` | minion/planner/query/rules.h:93-104 | so no reading of SUB or DIV over three operands makes the merge right: wherever the groupings differ one of the two is merged to a node of another value |
| `TreeRewrites.MergeBreaksSubtraction` | minion/planner/query/rules.h:93-104 | a concrete failure: (9 - 3) - 1 is 5 and 9 - (3 - 1) is 7, and both are merged to the same node |
| `TreeRewrites.MergeShrinks` | minion/planner/query/rules.h:93-103 | flattening takes one node off the unfolded expression for each child spliced |
| `TreeRewrites.ReduceKeepsValueExactly` | minion/planner/query/rules.h:146-181 | removing a NOT or NOP keeps the value if and only if it is not a double NOT over a number or a string, and always shrinks the unfolded expression |
| `TreeRewrites.ReduceGivesNumberAValue` | minion/planner/query/rules.h:146-181 | a concrete case: NOT NOT 5 has no value, and is reduced to one that is 5 |
| `TreeRewrites.ReduceKeepsValueOfTruths` | minion/planner/query/rules.h:146-181 | seen from the operators alone: it keeps the value wherever a double NOT stands over an operator that gives truth values |
| `TreeRewrites.NotChainValue` | minion/planner/query/rules.h:146-181 | the value of a chain of NOTs, by the parity of its length |
| `SqlLowering.SqlVisitor.Visit` | minion/planner/parse/parse_query.cc:337-510 | compiler correctness: lowering only appends, keeps child ids below parent ids, gives arithmetic at least two operands, gives literals data frame id 0 and other nodes none, appends exactly one node for each operator and literal and lowers every operand once, succeeds if and only if all columns are known, all integers fit 64 bits and `std::stod` accepts all float literals, and returns a node that denotes what SQL gives the expression, under every interpretation |
| `SqlLowering.SqlVisitor.VisitLiteralExpr` | minion/planner/parse/parse_query.cc:337-363 | literals: strings decoded, integers out of the 64-bit range and floats out of the range of a double refused, NULL, TRUE and FALSE as nodes of their own |
| `SqlLowering.SqlVisitor.VisitColumnExpr` | minion/planner/parse/parse_query.cc:369-382 | a reference with a table gives the node of the name whose text before the dot is the table and after it the column, one without a table the node of the column name; an error if there is none |
| `SqlLowering.NamesAgree` | minion/planner/parse/parse_query.cc:372-375 | references are looked up under the same name if and only if they name the same table and the same column, for names without dots as the grammar has them |
| `SqlLowering.SqlVisitor.VisitMulDivExpr` | minion/planner/parse/parse_query.cc:384-389 | products and quotients |
| `SqlLowering.SqlVisitor.VisitAddSubExpr` | minion/planner/parse/parse_query.cc:391-396 | sums and differences |
| `SqlLowering.SqlVisitor.VisitNotExpr` | minion/planner/parse/parse_query.cc:404-412 | negation, under each of its spellings |
| `SqlLowering.SqlVisitor.VisitLikeExpr` | minion/planner/parse/parse_query.cc:414-419 | LIKE and ILIKE and their negations |
| `SqlLowering.SqlVisitor.VisitBetweenExpr` | minion/planner/parse/parse_query.cc:421-438 | BETWEEN, negated or not, means X >= Y AND X <= Z although it is lowered as Y <= X and X <= Z |
| `SqlLowering.SqlVisitor.VisitComparisonExpr` | minion/planner/parse/parse_query.cc:440-464 | a chain of comparisons means the conjunction of the comparisons of neighbours, each operand lowered once |
| `SqlLowering.SqlVisitor.VisitAndExpr` | minion/planner/parse/parse_query.cc:470-482 | n-ary AND; a single operand stands for itself |
| `SqlLowering.SqlVisitor.VisitXorExpr` | minion/planner/parse/parse_query.cc:484-496 | n-ary XOR as parity |
| `SqlLowering.SqlVisitor.VisitOrExpr` | minion/planner/parse/parse_query.cc:498-510 | n-ary OR |
| `SqlLowering.SqlVisitor.AppendOperation` | minion/planner/parse/parse_query.cc:295-309 | an operator in the table gets its node, any other is an error |
| `SqlLowering.CmpTokenMeans` | minion/planner/parse/parse_query.cc:239-246 | every comparison token of the grammar is in the operator table, under the operator that compares that way |
| `SqlLowering.LikeTokenMeans` | minion/planner/parse/parse_query.cc:249-252 | every spelling of LIKE and ILIKE, normalised, is in the table under the right operator |
| `SqlLowering.NormalizedIsClean` | minion/planner/parse/parse_query.cc:105-113 | a normalised token has no space and no lower-case letter |
| `SqlLowering.CleanIsNormalized` | minion/planner/parse/parse_query.cc:105-113 | a token without either stays as it is |
| `SqlLowering.NormalizeIgnoresCase` | minion/planner/parse/parse_query.cc:105-113 | tokens that differ in case only are normalised to the same |
| `SqlLowering.NormalizeIgnoresSpaces` | minion/planner/parse/parse_query.cc:105-113 | a space makes no difference wherever it stands |
| `SqlMeaning.LogicTokens` | minion/planner/parse/parse_query.cc:228-238 | the spellings of AND, OR, XOR and NOT in the operator table |
| `SqlMeaning.NotLikeSpellings` | minion/planner/parse/parse_query.cc:249-252 | NOT LIKE and NOT ILIKE, written as two words, are the negations of LIKE and ILIKE |
| `SqlMeaning.TokensCompareNumbers` | minion/planner/parse/parse_query.cc:239-246 | every comparison token compares numbers as it says |
| `SqlMeaning.ChainsMean` | minion/planner/parse/parse_query.cc:440-464 | x < y < z is true of numbers if and only if x < y and y < z |
| `SqlMeaning.BetweensMean` | minion/planner/parse/parse_query.cc:421-438 | BETWEEN on numbers: whether y <= x <= z, or the opposite when negated |
| `SqlMeaning.ArithmeticMeans` | minion/planner/parse/parse_query.cc:384-396 | the four arithmetic operators on numbers; dividing by zero has no value |
| `SqlMeaning.JunctionsMean` | minion/planner/parse/parse_query.cc:470-510 | over operands that are true or false AND is whether all are true, OR whether one is, XOR whether an odd number is |
| `SqlMeaning.IntegerRange` | minion/planner/parse/parse_query.cc:348-350 | 9223372036854775807 compiles and 9223372036854775808 does not, and so at the lower end |
| `SqlMeaning.FloatRange` | minion/planner/parse/parse_query.cc:351-353 | 1.79e308 compiles and 1.8e308 does not; 2.5e-308 compiles and 2e-308 may be refused by the C library |
| `SqlLowering.ChainIsLinks` | minion/planner/parse/parse_query.cc:440-464 | the meaning of a chain is the conjunction of its comparisons taken one by one |
| `SqlLowering.BetweenMeaning` | minion/planner/parse/parse_query.cc:421-438 | the AND or NAND of the two lowered comparisons means what section 8.3 of SQL-92 says of BETWEEN |
| `SqlLowering.AppendLowered` | minion/planner/parse/parse_query.cc:306-308 | a node appended over lowered operands is the lowering of what its operator makes of them, and stays so as the graph grows |
| `SqlLowering.LoweredDen` | minion/planner/parse/parse_query.cc:333-335 | read with its own constant tables, a lowered node has the value of its expression |
| `PlannerPipeline.PlanKeepsMeaning` | minion/planner/query/rules.h:45-230 | lowering, any sequence of rules and compaction together: the root of the final graph has the value SQL gives the expression |
| `StringLiterals.UnescapeSqlString` | minion/planner/parse/parse_query.cc:26-103 | the index walk computes `Unescape` |
| `StringLiterals.Unescape` | minion/planner/parse/parse_query.cc:26-103 | the decoded text is never longer than the literal |
| `StringLiterals.FirstUnitOfEncoded` | minion/planner/parse/parse_query.cc:30-100 | an encoded byte is read back as one unit whatever follows it |
| `StringLiterals.UnescapeEncode` | minion/planner/parse/parse_query.cc:26-103 | decoding undoes every encoding, for every byte string and every choice, byte by byte, of raw, doubled, C-style, hexadecimal or octal |
| `StringLiterals.UnescapePieces` | minion/planner/parse/parse_query.cc:26-103 | what every form decodes to, in numbers: quotes, doubled or alone, named escapes, hexadecimal pairs, one to three octal digits, bytes that start no escape and an x without two digits with their backslash kept, and a backslash at the end |
| `StringLiterals.EveryTextHasPieces` | minion/planner/parse/parse_query.cc:26-103 | every literal is made of such forms, so the last row says of every literal what it decodes to |
| `StringLiterals.BackslashKept` | minion/planner/parse/parse_query.cc:87-91 | a backslash before a byte that starts no escape is kept with it, whatever follows, and so is one at the end |
| `StringLiterals.HexDigitsAre` | minion/planner/parse/parse_query.cc:45-58 | the hexadecimal digits and their values |
| `GraphCompaction.FillVisited` | minion/planner/query/graph.h:352-363 | terminates on every graph and leaves exactly the marks of a depth-first walk |
| `GraphCompaction.WalkWalks` | minion/planner/query/graph.h:352-363 | the walk keeps old marks, marks only nodes it has a path of the marked length to, and leaves no newly marked node with an unmarked child |
| `GraphCompaction.WalkMarksReachable` | minion/planner/query/graph.h:352-363 | from an all-zero array exactly the reachable nodes are marked, cycles or not, and each mark minus the start value is the length of a path |
| `GraphCompaction.VisitedNodesOrder` | minion/planner/query/graph.h:387-403 | the marked nodes, each once, by falling mark, ties in any order |
| `GraphCompaction.VisitedLeaveMap` | minion/planner/query/graph.h:365-385 | numbers the marked nodes by their place in such an order |
| `GraphCompaction.NumbersBijective` | minion/planner/query/graph.h:380-384 | the numbering is a bijection onto 0..k-1 |
| `GraphCompaction.MapMappingGraph` | minion/planner/query/graph.h:405-428 | row by row, the numbers of the numbered children in order |
| `GraphCompaction.MapOperations` | minion/planner/query/graph.h:430-439 | every record goes to the number of its node |
| `GraphCompaction.Compact` | minion/planner/query/graph.h:352-439 | the steps together: exactly the reachable nodes are kept, numbered by falling mark of a walk from a zeroed array, with their records and their children in order and as often |
| `GraphCompaction.CopyRepresents` | minion/planner/query/graph.h:405-439 | a kept node stands for exactly the expression its original stands for |
| `GraphCompaction.CopyKeepsMeaning` | minion/planner/query/graph.h:405-439 | the compacted graph is well-formed and every kept node has the value it had |
| `GraphCompaction.CopyTopologicalIff` | minion/planner/query/graph.h:405-439 | the compacted graph has parents after children, as the visitor requires of a graph it extends, if and only if its nodes were numbered children first |
| `NodeHashes.HashChildrenPositional` | minion/planner/query/graph.h:471-480 | folds the hashes of the children in order, in 64-bit arithmetic |
| `NodeHashes.HashChildrenSet` | minion/planner/query/graph.h:482-491 | depends on the number of children only |
| `NodeHashes.ChildrenHashes` | minion/planner/query/graph.h:471-491 | the hashes of a few rows of children, in numbers |
| `NodeHashes.ColumnHash` | minion/planner/query/graph.h:493-502 | the hash of the record of a column, in numbers |
| `NodeHashes.OneFieldTells` | minion/planner/query/graph.h:493-502 | two records that differ in exactly one of their six fields have different hashes |
| `NodeHashes.FillNodeHashes` | minion/planner/query/graph.h:504-526 | fills in the node hashes along the given order |
| `NodeHashes.FilledHashesAreTreeHashes` | minion/planner/query/graph.h:504-526 | along an order in which every node that is not commutative comes after its children each node gets the hash of the expression it stands for |
| `NodeHashes.HashCongruence` | minion/planner/query/graph.h:471-526 | along such an order nodes equal up to the order of commutative operands, at any depth, get equal hashes |
| `NodeHashes.HashesRightExactly` | minion/planner/query/graph.h:471-526 | whatever the array held before, all nodes get the hashes of their expressions if and only if the order is such; for rows in which no child is repeated a multiple of four times |
| `NodeHashes.CommutativeHashIgnoresOperands` | minion/planner/query/graph.h:482-491 | the converse fails: TRUE AND TRUE and TRUE AND FALSE have the same hash and different values |
| `NodeHashes.VisitOrderIsChildrenFirstIff` | minion/planner/query/graph.h:387-403 | every order the visit may return puts children first if and only if marks rise along every edge |
| `NodeHashes.VisitOrderIsReadFirstIff` | minion/planner/query/graph.h:387-403 | every order the visit may return is one to hash along if and only if marks rise along every edge out of a marked node that is not commutative |
| `NodeHashes.VisitHashesRightExactly` | minion/planner/query/graph.h:387-526 | so hashing along the visit order is right, whichever order the sort returns and whatever the array held, if and only if marks rise along every such edge; for rows of that kind |
| `NodeHashes.CompactedTopologicalIff` | minion/planner/query/graph.h:365-439 | so compaction restores that order, whichever order the sort returns, if and only if marks rise along every edge |
| `NodeHashes.CompactTopological` | minion/planner/query/graph.h:352-439 | what `Compact` returns has parents after children whenever the marks of its walk rise |
| `NodeHashes.EqualPathsMakeMarksRise` | minion/planner/query/graph.h:352-403 | they do when all paths from the root to a node have the same length |
| `NodeHashes.VisitOrderCanPutParentFirst` | minion/planner/query/graph.h:352-403 | in general they do not: an acyclic graph of four nodes where every visit order puts a parent before its child |
| `NodeHashes.HashedBeforeChild` | minion/planner/query/graph.h:504-526 | of two nodes with equal records over the same childless node, one hashed before it and one after: their hashes agree if and only if the child had its hash from the start |
| `NodeHashes.TwiceNotXMarks` | minion/planner/query/graph.h:352-363 | the marks of a walk over the graph of NOT x AND NOT NOT NOT x with one shared x, as lowered: x is marked above one of the nodes that stand for NOT x and below the other |
| `NodeHashes.StaleHashesDiffer` | minion/planner/query/graph.h:352-526 | in that graph, along every visit order the two nodes that stand for NOT x get equal hashes if and only if x had its hash from the start |
| `NodeHashes.CleanHashesDiffer` | minion/planner/query/graph.h:352-526 | the same with a column x and a zeroed hash array: equal expressions get different hashes |
| `EdgeLists.GetEdgesList` | minion/planner/query/graph.h:334-350 | the edges, row by row |
| `EdgeLists.GetGraphMapping` | minion/planner/query/graph.h:306-320 | one row for each id up to the largest, holding the targets in list order |
| `EdgeLists.MaxIdOccurs` | minion/planner/query/graph.h:310-314 | the largest id is one that occurs in the list, and 0 if the list is empty |
| `EdgeLists.RowsRoundTrip` | minion/planner/query/graph.h:306-350 | rows to edges and back restores every row, up to empty rows at the end |
| `EdgeLists.EdgesRoundTrip` | minion/planner/query/graph.h:306-350 | edges to rows and back is the stable sort of the list by source |
| `EdgeLists.RevertGraphMapping` | minion/planner/query/graph.h:322-332 | computes the reversed rows |
| `EdgeLists.ReversedTransposesEdges` | minion/planner/query/graph.h:322-332 | one reversal turns every edge around, as often as it was there |
| `EdgeLists.ReversedTwiceSorts` | minion/planner/query/graph.h:322-332 | two reversals sort every row and keep multiplicities |
| `EdgeLists.ReversedThreeTimes` | minion/planner/query/graph.h:322-332 | a third reversal gives what one gave |
| `StageLayout.ComputeStageEnds` | common/storage/idx_sort_static.cc:4-20 | the stage ends are the numbers of items in all stages up to each, and nothing beyond them is written |
| `StageLayout.GetIdxPosition` | common/storage/idx_sort_static.cc:22-37 | the loop computes the slot of an item from the stage ends |
| `StageLayout.LayoutIsBijection` | common/storage/idx_sort_static.cc:4-37 | array indices 0..n-1 go one to one onto slots 0..n-1, for every n, every number of stages from 1 and every step vector, steps of 0 included |
| `StageLayout.SlotInverse` | common/storage/idx_sort_static.cc:22-37 | every item goes to a slot below n, from which it can be read back |
| `StageLayout.ItemInverse` | common/storage/idx_sort_static.cc:22-37 | every slot holds an item that goes to that slot |
| `StageLayout.SlotInStage` | common/storage/idx_sort_static.cc:26-36 | an item lies in the block of its stage |
| `StageLayout.StageKeepsOrder` | common/storage/idx_sort_static.cc:26-36 | items of one stage keep the order of the array |
| `StageLayout.StepItemsBetween` | common/storage/idx_sort_static.cc:26-36 | between two consecutive items of the stages above stage j, and before the first of them, lie exactly steps[j-1] items of stage j |
| `StageLayout.StepItemsAfterLast` | common/storage/idx_sort_static.cc:26-36 | after the last of them at most steps[j-1] items of stage j are left |
| `StageLayout.GroupIsContiguous` | common/storage/idx_sort_static.cc:26-36 | the items of stage j before the i-th item of the stages above fill the offsets (i-1)*steps[j-1] to i*steps[j-1]-1 of the stage, as far as the stage goes; all of them if that i-th item is there |
| `StageLayout.ItemsCountExactly` | common/storage/idx_sort_static.cc:39-48 | `get_stage_pos_items_count` reads the offset p of a stage with step s back if and only if s >= 1 and p / s <= p % s + 1 |
| `StageLayout.FirstStageCount` | common/storage/idx_sort_static.cc:39-48 | on the first stage it is right at every slot |
| `StageLayout.ItemsCountMissesItem` | common/storage/idx_sort_static.cc:39-48 | a concrete case: with step 2, offset 4 holds item 7, and the count gives 6, an item of the stages above |
| `TreeRotations.RotateLeft` | common/storage/idx_sort_dynamic.cc:6-16 | the two nodes end as `LeftRotated` says, all others as they were, and the new root's position is returned |
| `TreeRotations.RotateRight` | common/storage/idx_sort_dynamic.cc:18-28 | the mirror image |
| `TreeRotations.RotationsOfShapes` | common/storage/idx_sort_dynamic.cc:6-28 | a rotation keeps the in-order sequence, and the two rotations undo each other on shapes |
| `TreeRotations.LeftRotationCorrect` | common/storage/idx_sort_dynamic.cc:6-16 | on a tree in the arena: the rotated tree at the returned position, the same in-order sequence, every other node untouched |
| `TreeRotations.RightRotationCorrect` | common/storage/idx_sort_dynamic.cc:18-28 | the mirror image |
| `TreeRotations.LeftRotationCounts` | common/storage/idx_sort_dynamic.cc:12-14 | every count in the rotated tree is its subtree's size if and only if the count handed in is the size of the outer subtree |
| `TreeRotations.RightRotationCounts` | common/storage/idx_sort_dynamic.cc:24-26 | the mirror image |
| `TreeRotations.InnerLeftRotation` | common/storage/idx_sort_dynamic.cc:6-16 | a left rotation anywhere in a counted tree, its result stored in the link of the parent: the whole is a tree with the same in-order sequence, its counts are right if and only if the count handed in is the outer size, and only the two nodes and the parent have changed |
| `TreeRotations.InnerRightRotation` | common/storage/idx_sort_dynamic.cc:18-28 | the mirror image |
| `TreeRotations.RotationsUndo` | common/storage/idx_sort_dynamic.cc:6-28 | left then right restores every link, and the whole arena if and only if the right child's count was what the root's leaves for it |
| `TreeRotations.RotationsUndoOnTrees` | common/storage/idx_sort_dynamic.cc:6-28 | on a tree whose counts are right the arena is restored exactly |
| `TreeRotations.RotateLeftThenRight` | common/storage/idx_sort_dynamic.cc:6-28 | the same of the two calls on the nodes themselves |
| `BillingSession.LimitHandler.Process` | minion/resource_guard/resource_guard.cc:43-60 | one completion, dispatched on phase and pending operation, has the effect `Processed` describes, or leaves the handler waiting to be destroyed |
| `BillingSession.LimitHandler.HandleReadCompletion` | minion/resource_guard/resource_guard.cc:106-126 | a failed read or a finish message starts the finish, any other message is billed and acknowledged |
| `BillingSession.LimitHandler.HandleWriteCompletion` | minion/resource_guard/resource_guard.cc:128-136 | a failed write starts the finish, any other the next read |
| `BillingSession.LimitHandler.BillItems` | minion/resource_guard/resource_guard.cc:69-71 | adds every item to the value stored under its key |
| `BillingSession.LimitHandler.HandleStreamConnect` | common/grpc/callback.h:171-186 | first the bind; then either the destroy or the next acceptor and the first read |
| `BillingSession.LimitHandler.CloneAcceptor` | common/grpc/callback.h:59-69 | registers a new handler that waits for a stream, and touches no other |
| `BillingSession.Runtime.RunDeferredDestroys` | common/grpc/callback.h:27-33 | the queued handlers, and only they, are destroyed |
| `BillingSession.Runtime.Prime` | common/grpc/callback.h:71-78 | the service starts with one handler waiting for a stream |
| `BillingSession.Runtime.CompleteNext` | minion/resource_guard/resource_guard.cc:157-160 | one turn of the main loop has the effect `Step` describes |
| `BillingSession.Runtime.Serve` | minion/resource_guard/resource_guard.cc:153-160 | the main loop, over any completions that can come, ends in the state of the run and keeps the invariant |
| `BillingSession.StepKeepsInv` | minion/resource_guard/resource_guard.cc:43-140 | every completion finds its handler live and keeps the invariant: one outstanding operation for each live handler, the one its state says; every outstanding operation of a live handler; no handler lost or destroyed twice |
| `BillingSession.RunKeepsInv` | minion/resource_guard/resource_guard.cc:43-140 | the invariant holds after every run, whatever the order and the ok flags of the completions |
| `BillingSession.OneAcceptorWaits` | common/grpc/callback.h:171-186 | exactly one acceptor, the newest handler, waits until an accept fails; after that none |
| `BillingSession.DestroyedExactly` | common/grpc/callback.h:159-162 | a handler is destroyed if and only if its finish has completed or its accept has failed |
| `BillingSession.ServiceRuns` | minion/resource_guard/resource_guard.cc:153-160 | all of these for every run of the service from its start |
| `BillingSession.RunBills` | minion/resource_guard/resource_guard.cc:63-104 | the bill of a live handler is what its messages make of the one it started with |
| `BillingSession.RunAcks` | minion/resource_guard/resource_guard.cc:106-121 | the acknowledgements a handler starts to write number the messages it reads that are not a finish |
| `BillingSession.BillConservation` | minion/resource_guard/resource_guard.cc:68-78 | what is stored under a key is its value in the last overwrite, or zero, plus everything appended since |
| `BillingSession.AppendsAddUp` | minion/resource_guard/resource_guard.cc:68-72 | without an overwrite: the value at the start plus everything appended |
| `BillingSession.ServiceBills` | minion/resource_guard/resource_guard.cc:63-136 | bills and acknowledgements of every handler over every run of the service from its start |
| `BillingSession.ServiceProtocol` | minion/resource_guard/resource_guard.cc:43-140 | over every run of the service each handler starts an accept, then reads and acknowledgements in turn, then at most one finish, which is the last; a live one is waiting for the last it started |
| `BillingSession.StoppedStartsNoMore` | minion/resource_guard/resource_guard.cc:106-140 | after a failed operation or a finish message a handler starts its finish, if it was reading or writing, and nothing else however the run goes on |
| `BillingSession.FinishStartedExactly` | minion/resource_guard/resource_guard.cc:106-136 | over every run of the service a handler has started its finish if and only if a read or a write of its own has failed or it has read a finish message |
| `BillingSession.SessionGoesOn` | minion/resource_guard/resource_guard.cc:106-136 | a handler with no such completion and no failed accept is live, has started one operation more than have completed, and the last one, an accept, a read or an acknowledgement, is outstanding |
| `BillingSession.NextAcceptsFirst` | common/grpc/callback.h:171-186 | when a stream comes in the next handler starts to wait before this one starts to read |

## Left out

- RewriteKeepsMeaning: the numeric merge is claimed for ADD and MUL only; for SUB and DIV `MergeNumericMeaningExactly` says when it is right, and for MIN, MAX, AVG, MEDIAN, STD and the other aggregates, whose meaning is a parameter, nothing is claimed.
- HashesRightExactly: the direction from the hashes to the order needs rows in which no child is repeated a multiple of four times, as four equal contributions to a positional hash may cancel; no node that lowering makes has so many operands under such an operator.
- MergeNumericExactly: covers arithmetic nodes over two or more operands, whose operands of the same operator have two or more; by the contract of `Visit` and by `RunKeepsWide` the planner makes no other.
- Floating point: numbers, bills and float literals are reals, without rounding or NaN.  A literal too large for a double is refused as in the source; which of those too small for a normal double are refused depends on the C library and is a parameter.
- Widths: node ids, constant ids and item counts are unbounded; the 32-bit counts of the tree and the 64-bit hashes wrap around as in the source.
- Evaluation order: operators are strict, so an operand without a value leaves its parent without one even where SQL could stop early.
- Lowering of IS NULL (the source drops the operand), IN, casts, function calls and subqueries, and the SELECT, JOIN and table layers above expressions.
- The ANTLR parser: expressions are taken as parsed, with the token text the grammar allows.
- SQL error messages and source positions: an error is an outcome without text.
- `roll_constants_applies`, `fillDFIds`, `setNodeName`, `appendTable`, `loadTableNames` and `getNumericConstant`.
- Data frame ids in the value of a node: they steer `PullDfApply` only, and `MapOperations` keeps them unrenumbered as the source does.
- The library sort: modelled by an insertion sort whose contract leaves the order of ties open.
- The calls that combine marking, numbering and copying: the repository has no caller, so `Compact` composes them in the order their parameters suggest.
- `find_idx_range` and `get_next_stage_pos`: the search over the static index.  With one stage it is a linear scan; with more it rests on `get_stage_pos_items_count`, which `ItemsCountExactly` shows to be wrong beyond the front of a stage.
- Rebalancing and search of the order-statistic tree: only the rotations exist in the source.
- The gRPC library: an operation started comes back as one completion, in any order and with any ok flag; transport, threads and several queues are not part of this model.
- The `GRPCBasicHandler` and the message stream handler, whose runs have no useful invariant.
- Content of resource requests and finish results: the source does nothing with them yet.
- Network, TLS, storage blocks, caches, certificates and printing.
