# Verified model of a monitoring stack

This project models six parts of a repository that bundles Grafana with the Kubernetes
config sidecar, and proves what they promise over every input, every interleaving or every
reachable state:

1. **Server-side expressions** (`grafana/pkg/expr`). Queries become nodes, the variables a
   command needs become edges, the graph is sorted, and the nodes run over one shared map of
   results. The model goes from the decoded request to the filtered response, including the
   math language (lexer, parser, evaluator), which makes "a command reads only what it
   declares" a theorem. Executing any topological order is proved equal to recursive
   evaluation over the dependency graph, and the answer to be the unique solution of the
   equations that the queries write down.
2. **Threshold commands**, which are compiled to math text, lexed, parsed and evaluated. The
   proof runs through the text: what is printed is what is read back, up to the rounding of
   `%f`.
3. **k8s-sidecar**: the LIST and WATCH loops over a file system with a version cache, several
   watcher processes, and the unique file names they write.
4. **Plugin resource stream**: two goroutines over an unbuffered channel with cancellation, a
   non-atomic Close and a deferred wait, as interleaved steps.
5. **Login attempt limiter**: check-then-record over a sliding window with concurrent calls and
   a cleanup job.
6. **Dashboard ACL diff**, with the rights an update leaves everyone, and the **code generator's WriteDiffer**.

| files | component |
|---|---|
| `MathValues`, `MathLexer`, `MathParser`, `MathEval` | the math expression language |
| `MathPrint`, `MathMeaning` | which tree a text means, and what the operators compute |
| `MathCalls`, `MathPanics`, `MathPanicCauses`, `MathExamples` | which calls can be made, and when evaluating an expression panics |
| `ThresholdText`, `Threshold`, `ThresholdVerdict`, `ThresholdRange` | threshold: printing and scanning, compiling, one bound, ranges and the whole command |
| `Commands`, `CommandMeaning`, `Execution`, `TopoSort`, `Building`, `Transform`, `QueryAnswers`, `Frames` | commands and what they compute, pipeline run, sort, graph building, request, answers in terms of the queries, frame conversion |
| `SidecarFiles`, `Sidecar`, `SidecarRuns`, `SidecarLists`, `SidecarEntries`, `SidecarCache`, `SidecarExamples`, `SidecarNames`, `SidecarWatchers` | the sidecar: file steps, the process, WATCH runs, LIST passes, the files of an object's entries, the version cache, concrete inputs, file names, concurrent processes |
| `ResourceStream`, `LoginLimiter` (with `LoginRuns`, `LoginTight`), `DashboardAcl` (with `DashboardRights`), `WriteDiffer` | one component each |

Operations that update things in place are methods or classes, tied to specification functions
(`RunPipeline`, `WatchRun`, `ListPass`, `Diff`, …) about which the laws are proved.

## What the code does not promise

Where an expected law fails, one lemma gives a failing input and another states when the law holds:

- A LIST pass over secrets overwrites its change flag for each secret: `SecretChangeGoesUnnoticed`
  writes a file and notifies nobody. The pass notifies correctly if and only if the last secret
  changed something or none did (`SecretPassNotifiesIff`). With the version cache the flag is that
  of the last secret not skipped, so the two loops can notify differently
  (`CachedSecretsNotifyMore`, exactly when: `SecretNotificationsAgreeIff`).
- A MODIFIED event that drops a key or moves the object leaves the old file behind
  (`DroppedKeyLeavesItsFile`); the mirror is exact if and only if nothing was left
  (`MirrorExactIffNothingStale`).
- "Unique" file names collide when an object name contains a dot (`DottedNamesCollide`, exactly
  when: `UniqueFilenameEqualIff`).
- Two keys of one object on one path can raise the change flag for nothing
  (`CollidingKeysOverstate`, exactly when: `FlagTruthfulIff`).
- The handler of a resource stream never reports the flusher's error, not even for an empty
  response, except that of a cancellation before the first body (`FlushErrorIsNeverReported`). A
  cancellation after a written body can end in a panic (`LateCancellationPanics`); from which
  states, and from which not, is `PanicsIff`.
- A threshold whose input name contains `}` does not compile, or reads variables it does not
  declare (`SumNameReadsOthers`, exactly when: `ReadsDeclaredIff`). The pipeline theorems take
  requests without such names and with unique refIDs, and need nothing else of the commands, in
  particular nothing about how numbers are read.
- A range threshold gives more verdicts than values when label sets are comparable
  (`ComparableLabelsMultiply`, exactly when: `RangeVerdictsIff`), and `outside_range` fires on NaN
  (`NanIsOutsideEveryRange`).
- Evaluating a math expression can panic. The parser's type check does not look below a binary
  operator, so `$A + abs()` parses and its call cannot be made (`CallBelowSumPanics`); and built-in
  functions turn NoData into nil, so `-abs($A)` panics when `$A` is NoData (`NegatedCallPanics`).
  Which expressions can panic on some data, and which cannot, is `PanicIff`.
- A chain of classic conditions joined by `and` forgets missing data: it comes to null if and only if
  its last condition has no data (`AndChainIsNullIff`, with `or`: `ClassicAnswers`).
- With duplicate refIDs the order of execution shows (`DuplicateNamesAreNotConfluent`); with unique
  ones it does not (`ExecutionIsConfluent`).
- The ACL diff alone is wrong on an entry that names two principals (`TwoPrincipalsLeaveResidue`,
  exactly when it is right: `DiffReplayIff`). Validation refuses such entries, and the update as a
  whole is right for every accepted request (`UpdateIsRequest`).
- The documented grammar allows commas between function arguments; the parser has no case for one,
  so such a text never parses (`CommaNeverParses`, `TwoArgumentsAreRefused`). The model follows
  the code.

## Model

| member | source | states |
|---|---|---|
| `Execution.ExecutePipeline` | grafana/pkg/expr/graph.go:49-60 | the loop over nodes computes the left-to-right run over the shared result map and stops at the first failing node |
| `Execution.ExecIsMeaning` | grafana/pkg/expr/graph.go:50-58 | executing a node over the shared map gives the same result as executing it on nothing but the recursively evaluated values of the variables it needs |
| `Execution.ExecutionIsMeaning` | grafana/pkg/expr/graph.go:49-60 | execution succeeds if and only if recursive evaluation over the dependency graph gives every refID a value, and then the map holds exactly those values |
| `Execution.ExecutionIsConfluent` | grafana/pkg/expr/graph.go:49-60 | any two execution orders of one dependency graph both succeed or both fail, with equal maps on success |
| `Execution.MeaningIsRankFree` | grafana/pkg/expr/graph.go:95-107 | the recursive value of a refID does not depend on the order by which its recursion is shown to end |
| `Execution.PipelineRanks` | grafana/pkg/expr/graph.go:95-107 | every execution order yields a rank under which recursive evaluation ends |
| `Execution.DuplicateNamesAreNotConfluent` | grafana/pkg/expr/graph.go:57-57 | two datasource nodes under one refID with different answers give different maps in the two orders |
| `TopoSort.Sort` | grafana/pkg/expr/graph.go:95-107 | an order is returned if and only if the graph has no cycle; it holds every node once, each after its predecessors |
| `TopoSort.OrderExcludesCycle` | grafana/pkg/expr/graph.go:96-99 | a graph with a topological order has no cycle |
| `TopoSort.StuckHasCycle` | grafana/pkg/expr/graph.go:96-99 | a nonempty rest in which every node has a predecessor contains a cycle |
| `Building.DirectedGraph.AddNode` | grafana/pkg/expr/graph.go:165-165 | appends one node under the next unused id and changes no edge |
| `Building.DirectedGraph.SetEdge` | grafana/pkg/expr/graph.go:207-209 | adds exactly one edge between two different existing nodes |
| `Building.BuildGraph` | grafana/pkg/expr/graph.go:125-168 | succeeds if and only if every query has a nonempty uid and decodes as a command where the uid is `__expr__` or `-100` and as a datasource request where it is another; then it holds one node per query in order, with the query's name and that payload, and no edge |
| `Building.BuildNodeRegistry` | grafana/pkg/expr/graph.go:110-122 | every refID is mapped to some node that bears it |
| `Building.BuildNodeEdges` | grafana/pkg/expr/graph.go:183-210 | fails if and only if some needed name does not resolve, is the node itself, or breaks the rules of classic conditions; otherwise adds exactly the edges from the needed nodes |
| `Building.BuildGraphEdges` | grafana/pkg/expr/graph.go:171-213 | succeeds if and only if every command node's names resolve by those rules, and then the edges are exactly the declared dependencies |
| `Building.BuildPipeline` | grafana/pkg/expr/graph.go:64-107 | succeeds if and only if all queries decode as their uids ask, every needed variable resolves to another node, classic conditions read only datasources and feed nothing, and there is no cycle; the result has the node of each query once, after all it needs. With unique refIDs this is a property of the dependency graph alone |
| `Building.BuildableIsAccepted` | grafana/pkg/expr/graph.go:171-213 | with unique refIDs, a dependency graph over which recursive evaluation ends and classic conditions obey their rules passes every check and has no cycle |
| `Building.AcceptedIsBuildable` | grafana/pkg/expr/graph.go:64-107 | conversely, whatever is accepted is such a graph |
| `Building.RegistryIsUnique` | grafana/pkg/expr/graph.go:110-122 | with unique refIDs there is only one registry, so the outcome does not depend on the iteration order |
| `Building.GraphHolds` | grafana/pkg/expr/graph.go:110-122 | with unique refIDs the dependency graph holds exactly the built nodes under their names |
| `Building.BuiltIsPipeline` | grafana/pkg/expr/graph.go:64-107 | what the builder returns is an execution order of the dependency graph in the sense the execution theorems need |
| `Transform.HiddenRefIDs` | grafana/pkg/expr/transform.go:111-128 | fails if and only if some hide flag does not decode, and otherwise returns exactly the refIDs of hidden queries |
| `Transform.Filter` | grafana/pkg/expr/transform.go:98-106 | keeps exactly the responses that are not hidden, unchanged |
| `Transform.TransformData` | grafana/pkg/expr/transform.go:60-109 | a disabled service refuses; otherwise the answer is the filtered run of a pipeline built from the queries, or an error when building, decoding or running fails |
| `Transform.RunsAgree` | grafana/pkg/expr/service.go:65-77 | two runs over the same nodes in any two execution orders agree on success and on every result |
| `Transform.HideNonInterference` | grafana/pkg/expr/transform.go:78-128 | changing hide flags changes neither success nor the result of any refID visible both times |
| `Transform.AnsweredIff` | grafana/pkg/expr/transform.go:60-109 | a request is answered if and only if its queries and hide flags decode, its dependency graph can be scheduled, and recursive evaluation gives every refID a value |
| `Transform.AnswerIsMeaning` | grafana/pkg/expr/transform.go:60-109 | the answer holds exactly the recursive values of the visible refIDs |
| `QueryAnswers.PipelineIffSchedulable` | grafana/pkg/expr/graph.go:64-107 | what is accepted, on the queries' own fields: every uid is there, each query decodes as its uid asks, and some ranking puts every query after the queries whose names its command mentions, with the rules of classic conditions |
| `QueryAnswers.AnsweredQueriesDecode` | grafana/pkg/expr/graph.go:125-168 | whatever the refIDs, a request is answered only if every uid is there and nonempty, every query under `__expr__` or `-100` decodes as a command and every other as a request |
| `QueryAnswers.SolvesIsSolvesGraph` | grafana/pkg/expr/graph.go:155-159 | the equations of the queries, in which `__expr__` and `-100` mean the query's own command and all else the datasource's answer to its request, are those of the nodes |
| `QueryAnswers.SolutionIsMeaning` | grafana/pkg/expr/graph.go:49-60 | a solution of the equations can only be the recursive values, so there is at most one |
| `QueryAnswers.MeaningsSolve` | grafana/pkg/expr/graph.go:49-60 | where every refID has a recursive value, these are a solution |
| `QueryAnswers.AnswerIsTheSolution` | grafana/pkg/expr/transform.go:60-109 | a request is answered if and only if its queries and hide flags decode, its commands' mentions can be ranked, and the equations (result of an expression query = its command executed on the results; of any other query = the datasource's answer) have a solution; the answer is the visible part of the one solution |
| `Commands.ExecuteReduce` | grafana/pkg/expr/commands.go:157-182 | succeeds with every value of the named input reduced in its place, or fails with the error of the first value that cannot be reduced |
| `Commands.ExecuteResample` | grafana/pkg/expr/commands.go:262-277 | the same for resampling, where anything but a series is such an error |
| `Commands.ParsedMathIsHonest` | grafana/pkg/expr/commands.go:63-65 | a math command made from text declares exactly the variables of its tree |
| `Commands.FoldIsLocal` | grafana/pkg/expr/classic/classic.go:60-169 | the left-to-right fold over classic conditions depends only on the conditions' inputs |
| `Commands.CommandIsLocal` | grafana/pkg/expr/commands.go:151-182 | every command kind gives equal results on result maps that agree on the variables it declares |
| `CommandMeaning.NeedsAreMentions` | grafana/pkg/expr/commands.go:63-65 | a command waits for exactly the variables that stand in its expression or settings |
| `CommandMeaning.ReduceAnswers` | grafana/pkg/expr/commands.go:157-182 | a reduction fails exactly on a scalar or on a series that cannot be reduced; otherwise each series is reduced, each number keeps its labels and value under the command's name, and no data stays |
| `CommandMeaning.ResampleAnswers` | grafana/pkg/expr/commands.go:262-277 | resampling answers exactly for series that can be resampled, each in its place |
| `CommandMeaning.FiresOnNumbers` | grafana/pkg/expr/classic/evaluator.go:41-98 | the evaluators on numbers: beyond a bound, and strictly inside or outside a range whose bounds come in either order |
| `CommandMeaning.FiresBeyondNumbers` | grafana/pkg/expr/classic/evaluator.go:41-98 | null fires only the test for it, NaN nothing, and the infinities lie beyond every bound |
| `CommandMeaning.FoldIs` | grafana/pkg/expr/classic/classic.go:70-147 | the fold fires if and only if some condition fires, is first or joined by `or`, and every later one is joined by `or` or fires; it has no data if and only if some condition has none and every later one is joined by `or` |
| `CommandMeaning.ClassicAnswers` | grafana/pkg/expr/classic/classic.go:70-169 | classic conditions fail exactly on a scalar, and come to null, 1 or 0 by that closed form |
| `CommandMeaning.AndChainIsNullIff` | grafana/pkg/expr/classic/classic.go:119-140 | a chain joined by `and` is null if and only if its last condition has no data, and 1 if and only if it is not null and all conditions fire |
| `MathLexer.RunExact` | grafana/pkg/expr/mathexp/parse/lex.go:120-125 | a run of accepted characters followed by a refused one is consumed exactly |
| `MathLexer.EofIsLast` | grafana/pkg/expr/mathexp/parse/lex.go:172-338 | the end of the text is the last token and no other, and a variable token ends at its first closing brace |
| `MathParser.ParseLevel` | grafana/pkg/expr/mathexp/parse/parse.go:183-259 | a parsed level moves forward, stays in the text, and has collected exactly the variables of the tree it built; which tree that is, is `MathPrint.PrintParses` |
| `MathParser.ParseMore` | grafana/pkg/expr/mathexp/parse/parse.go:183-259 | the loop of a level adds exactly the variables of the operands it attaches |
| `MathParser.ParseFactor` | grafana/pkg/expr/mathexp/parse/parse.go:261-298 | the same for factors: numbers, variables, calls, parentheses and unary operators |
| `MathParser.ParseArgs` | grafana/pkg/expr/mathexp/parse/parse.go:309-336 | the same for argument lists |
| `MathParser.Parse` | grafana/pkg/expr/mathexp/parse/parse.go:148-165 | the declared variable names of a parsed expression are the variables of its tree |
| `MathPrint.ParseAt` | grafana/pkg/expr/mathexp/parse/parse.go:183-298 | the tokens of a tree, in parentheses where its operator binds looser than the place wants, parse there to that tree (by mutual induction with the operator loop, factors and arguments) |
| `MathPrint.Spine` | grafana/pkg/expr/mathexp/parse/parse.go:183-259 | a chain of operators of one tightness is parsed from the left |
| `MathPrint.TokensParse` | grafana/pkg/expr/mathexp/parse/parse.go:167-259 | the tokens of every printable tree, operands in parentheses exactly where they bind looser (or equally, on the right), parse to the tree; tightness is `||`, `&&`, comparisons, `+ -`, `* / %`, `**`, ascending |
| `MathPrint.LexText` | grafana/pkg/expr/mathexp/parse/lex.go:172-338 | tokens written with spaces between them lex to themselves |
| `MathPrint.PrintParses` | grafana/pkg/expr/mathexp/parse/parse.go:148-298 | the printed text of every tree of lexable names, readable numbers and known operators and functions parses to exactly that tree, unless the type check refuses it |
| `MathParser.LevelReads` | grafana/pkg/expr/mathexp/parse/parse.go:183-336 | a parse consumes no comma, and the names it collects are those of variable tokens (by mutual induction with the operator loop, factors and arguments) |
| `MathParser.CommaNeverParses` | grafana/pkg/expr/mathexp/parse/parse.go:309-336 | no text with a comma token is an expression, although the grammar documents commas between arguments |
| `MathParser.ParsedNamesAreBraceFree` | grafana/pkg/expr/mathexp/parse/parse.go:300-306 | no variable of a parsed expression has a closing brace in its name |
| `ThresholdText.TwoArgumentsAreRefused` | grafana/pkg/expr/mathexp/parse/parse.go:309-336 | a call whose first argument is followed by a comma is refused, whatever its name, its argument and its rest |
| `MathEval.WalkIsLocal` | grafana/pkg/expr/mathexp/exp.go:79-333 | an expression evaluates alike on result maps that agree on the variables it mentions |
| `MathEval.WalkArgsIsLocal` | grafana/pkg/expr/mathexp/exp.go:491-531 | the same for the arguments of a call |
| `MathMeaning.OperatorsOnNumbers` | grafana/pkg/expr/mathexp/exp.go:165-415 | comparisons, logical operators, negation and not, on numbers, are the mathematical ones |
| `MathMeaning.ArithmeticOnNumbers` | grafana/pkg/expr/mathexp/exp.go:348-361 | arithmetic is the library's on the two operands in their order |
| `MathMeaning.OperatorsOnNaN` | grafana/pkg/expr/mathexp/exp.go:336-349 | a NaN gives NaN, except that `||` is decided by a left operand other than zero, NaN included, and `&&` by a zero on the left |
| `MathMeaning.JoinLabelsIff` | grafana/pkg/expr/mathexp/exp.go:209-230 | labels join if and only if one side's are among the other's, and the larger side's are kept |
| `MathMeaning.TimeJoinIs` | grafana/pkg/expr/mathexp/exp.go:464-489 | two series join on the times of the left one that the right one has, in order, each with the right one's last point of that time; a null makes null |
| `MathMeaning.PointwiseIs` | grafana/pkg/expr/mathexp/exp.go:438-460 | a series and a number combine point by point at the series' times, operands on the sides where they stood |
| `MathMeaning.BinaryValueIs` | grafana/pkg/expr/mathexp/exp.go:259-333 | under a known operator two values fail to combine exactly if one has no data; otherwise their kinds decide the kind of the result, with the expression's name and the joined labels |
| `MathMeaning.MeetingsAre` | grafana/pkg/expr/mathexp/exp.go:209-238 | the unions are all pairs of values with comparable labels, once each, row by row |
| `MathMeaning.BinaryAnswers` | grafana/pkg/expr/mathexp/exp.go:195-333 | a binary operation on any two results: when it is empty, when it fails, and otherwise one combined value per pair that meets, in order; two single values that do not meet are combined without labels |
| `MathMeaning.UnaryAnswers` | grafana/pkg/expr/mathexp/exp.go:97-163 | a unary operation answers whenever its operand does, value by value, keeping kinds, labels, times and missing data |
| `MathCalls.ParsedIsSound` | grafana/pkg/expr/mathexp/parse/parse.go:148-336 | every parsed expression has known operators only, has strings only as arguments, and has passed the type check |
| `MathCalls.CheckedFits` | grafana/pkg/expr/mathexp/parse/node.go:163-193 | in a checked tree every call has the declared number and kinds of arguments if and only if those below a binary operator have |
| `MathPanics.ClassIsExact` | grafana/pkg/expr/mathexp/exp.go:79-333 | when one variable holds NoData, alone or followed by a scalar, and all others one scalar, every parsed expression comes to exactly its class: empty, data, NoData, nil, a failure or a panic, with every library and all built-in functions |
| `MathPanicCauses.NilSource` | grafana/pkg/expr/mathexp/funcs.go:201-236 | a nil value in a result is a built-in function applied to the NoData of one variable |
| `MathPanicCauses.PanicCause` | grafana/pkg/expr/mathexp/exp.go:97-333 | whatever the data, a panic has one variable to blame (or a call that cannot be made): the class with that variable missing is a panic, too |
| `MathPanicCauses.PanicIff` | grafana/pkg/expr/mathexp/exp.go:79-333 | some data make an expression panic if and only if one of its classes is a panic, for every library and all built-in functions |
| `MathPanicCauses.NilIff` | grafana/pkg/expr/service.go:65-77 | some data make it yield a nil value, which encoding the answer trips over, if and only if one of its classes is nil |
| `MathPanicCauses.EvalIsWalk` | grafana/pkg/expr/mathexp/exp.go:79-531 | on variables without NoData an expression whose calls fit never panics and never yields nil: the evaluator that follows panics agrees with the walk |
| `MathPanicCauses.BadCallIsReached` | grafana/pkg/expr/mathexp/exp.go:491-521 | with every library and all built-in functions, variables that hold one scalar each lead to any call that does not fit, and to a panic |
| `MathPanicCauses.ParsedPanicIff` | grafana/pkg/expr/mathexp/exp.go:46-77 | a parsed expression can panic if and only if one of its classes is a panic; a call below a binary operator that does not fit is enough |
| `MathExamples.CallBelowSumPanics` | grafana/pkg/expr/mathexp/parse/node.go:318-320 | a sum with a call that lacks its arguments parses and panics on all data |
| `MathExamples.NegatedCallPanics` | grafana/pkg/expr/mathexp/funcs.go:201-236 | a negated call of a built-in function on a variable parses, its call fits, and it panics when the variable is NoData |
| `ThresholdText.DigitsRoundTrip` | grafana/pkg/expr/threshold.go:109-115 | the printed whole part reads back as the number |
| `ThresholdText.PaddedRoundTrip` | grafana/pkg/expr/threshold.go:109-115 | the printed decimals, zero-padded, read back as the number |
| `ThresholdText.RoundingError` | grafana/pkg/expr/threshold.go:109-115 | printing with six decimals is off by at most half a millionth |
| `ThresholdText.PrintedNumberReads` | grafana/pkg/expr/threshold.go:109-115 | the number scanner reads a printed bound as its rounded magnitude |
| `ThresholdText.LexVar` | grafana/pkg/expr/mathexp/parse/lex.go:289-325 | a braced valid name is lexed as one variable token, whatever follows |
| `ThresholdText.LexBadVar` | grafana/pkg/expr/mathexp/parse/lex.go:289-325 | a braced invalid name without a closing brace in it is a lexical error and ends the tokens |
| `ThresholdText.LexPlainVar` | grafana/pkg/expr/mathexp/parse/lex.go:289-325 | a variable without braces is one token, up to the first character that is no letter, digit or underscore |
| `ThresholdText.LexComparison` | grafana/pkg/expr/mathexp/parse/lex.go:172-325 | a printed comparison lexes to its variable, operator, optional minus and number, followed by the tokens of the rest |
| `ThresholdText.ParseCondition` | grafana/pkg/expr/mathexp/parse/parse.go:209-220 | those tokens parse to the comparison of the variable with the bound as the number reader reads it |
| `ThresholdText.ConditionFails` | grafana/pkg/expr/mathexp/parse/parse.go:279-297 | and do not parse when the reader refuses the bound |
| `Threshold.ThresholdCompiles` | grafana/pkg/expr/threshold.go:106-119 | for every supported function, lexable name and number reader, the printed text parses if and only if the reader accepts the bounds, and then to the intended tree, whose variables are exactly the declared one |
| `Threshold.BadNameFails` | grafana/pkg/expr/threshold.go:91-103 | a name that is not lexable and has no closing brace never compiles |
| `Threshold.ValidNameReadsItself` | grafana/pkg/expr/threshold.go:87-119 | a threshold with a lexable name that compiles reads exactly that variable, however numbers are read |
| `Threshold.ThresholdIsLocal` | grafana/pkg/expr/threshold.go:87-103 | a threshold reads only its declared variable, for every name without a closing brace |
| `Threshold.BraceNameReadsOthers` | grafana/pkg/expr/threshold.go:87-119 | a name with a closing brace that compiles at all reads some variables, and never the declared one |
| `Threshold.ReadsDeclaredIff` | grafana/pkg/expr/threshold.go:87-119 | a threshold that compiles reads exactly the variable it declares if and only if that name has no closing brace |
| `Threshold.SumNameReadsOthers` | grafana/pkg/expr/threshold.go:106-109 | one such name compiles to a tree that reads two other variables |
| `ThresholdVerdict.WalkCondition` | grafana/pkg/expr/mathexp/exp.go:250-333 | comparing a variable with a bound gives one verdict per value, in order, with its kind and labels |
| `ThresholdVerdict.WalkNoData` | grafana/pkg/expr/mathexp/exp.go:199-207 | a result that is empty or starts with NoData compares to an empty result |
| `ThresholdVerdict.WalkLateNoData` | grafana/pkg/expr/mathexp/exp.go:250-333 | NoData after a first value with data makes the comparison fail |
| `ThresholdRange.JoinValue` | grafana/pkg/expr/mathexp/exp.go:417-489 | joining the two comparisons of a pair of values gives the joint verdict of the range: the first bound judges the one value, the second the other, point by point of equal time for two series |
| `ThresholdRange.WalkRange` | grafana/pkg/expr/mathexp/exp.go:195-333 | joining two comparisons of one variable gives one joint verdict per pair of values that meet, in order |
| `ThresholdRange.UnionsAreMeetings` | grafana/pkg/expr/mathexp/exp.go:195-248 | those pairs are exactly the pairs of values with comparable labels |
| `ThresholdRange.RangeIsVerdict` | grafana/pkg/expr/mathexp/exp.go:195-489 | when labels are pairwise incomparable and no series has two points of one time, every value and point gets the verdict of the range |
| `ThresholdRange.ThresholdComputesVerdicts` | grafana/pkg/expr/threshold.go:91-119 | executing a threshold, text and all, with any number reader: a refused bound is an error; an input that is empty or starts with NoData gives an empty result, NoData further on an error; otherwise one bound gives its verdict on every value and point, and a range one joint verdict per pair of values with comparable labels |
| `ThresholdRange.OneVerdictPerValueIff` | grafana/pkg/expr/mathexp/exp.go:195-248 | joining a result with itself yields as many values as it has if and only if no two label sets are comparable, and never fewer |
| `ThresholdRange.RangeVerdictsIff` | grafana/pkg/expr/threshold.go:91-119 | an executed range threshold over data fails only if a bound cannot be read; otherwise it gives at least one verdict per value, and exactly one if and only if no two label sets are comparable |
| `ThresholdRange.ComparableLabelsMultiply` | grafana/pkg/expr/threshold.go:91-119 | a range threshold over an unlabelled and a labelled number gives more than two verdicts |
| `ThresholdVerdict.ExactTest` | grafana/pkg/expr/threshold.go:109-115 | with an exact reader the bounds as read are the bounds as printed |
| `ThresholdVerdict.FarValuesGetIntendedVerdict` | grafana/pkg/expr/threshold.go:106-119 | every value more than 5e-7 from each bound gets the intended verdict |
| `ThresholdVerdict.VerdictIntendedIff` | grafana/pkg/expr/threshold.go:106-119 | for every function, exactly which values are misjudged: those between a bound and its printed form, unless the other end of a range decides or makes up for it |
| `ThresholdRange.NanIsOutsideEveryRange` | grafana/pkg/expr/threshold.go:112-115 | executed on a NaN number, an outside range gives 1 and a within range NaN, with the number's labels |
| `Frames.ShortcutAgreesWithLoop` | grafana/pkg/expr/nodes.go:412-418 | with one value column the shortcut gives what the general loop gives, and fails in addition exactly when the frame has other than two fields |
| `Frames.CopyColumns` | grafana/pkg/expr/nodes.go:422-435 | row by row, the new frame has the time column and the value column with its name and labels |
| `Frames.WideToMany` | grafana/pkg/expr/nodes.go:406-444 | succeeds if and only if the frame is wide, no time is null and no value column is one of integers without rows (and a frame with one value column has two fields); then there is one series per value column, in order, named after the frame or else the column, with the column's labels and cells and the shared times |
| `Frames.WideRoundTrip` | grafana/pkg/expr/nodes.go:406-444 | all series share the time column, and the times and all value columns are recovered from them |
| `Frames.IsNumberTable` | grafana/pkg/expr/nodes.go:342-361 | true if and only if one column is numeric and all others are text |
| `Frames.ExtractNumberSet` | grafana/pkg/expr/nodes.go:363-400 | one number per row with that row's value, labelled by that row's text cells |
| `Frames.RowRoundTrip` | grafana/pkg/expr/nodes.go:363-400 | with distinct column names every text cell of a row is recovered from its labels |
| `Frames.LabelsComeFromColumns` | grafana/pkg/expr/nodes.go:363-400 | no label appears that is not the name of a text column |
| `Frames.DuplicateColumnLosesFirst` | grafana/pkg/expr/nodes.go:363-400 | two text columns of one name keep only the later cell |
| `SidecarFiles.ApplyAt` | k8s-sidecar/src/helpers.py:43-97 | after an object with distinct paths is processed, each path holds its content, or nothing after a removal |
| `SidecarFiles.ApplyElsewhere` | k8s-sidecar/src/helpers.py:43-97 | no other path is touched |
| `SidecarFiles.InPlaceIsQuiet` | k8s-sidecar/src/helpers.py:60-74 | processing an object whose files are in place reports nothing and writes nothing |
| `SidecarFiles.AppliedIsInPlace` | k8s-sidecar/src/helpers.py:43-97 | after processing, the object's files are in place |
| `SidecarFiles.ReportsIffNotInPlace` | k8s-sidecar/src/resources.py:166-204 | an object's change flag is raised if and only if some file is not already as its key would leave it |
| `SidecarFiles.UnchangedIff` | k8s-sidecar/src/helpers.py:43-97 | the file system stays as it is if and only if the last word on every path changes nothing |
| `SidecarFiles.FlagTruthfulIff` | k8s-sidecar/src/resources.py:166-204 | for all objects, the flag means a changed file system if and only if it is not the case that some key finds work to do while every last word on a path finds none |
| `SidecarFiles.RemovalFlagIsTruthful` | k8s-sidecar/src/resources.py:199-201 | a removal's flag always means a changed file system |
| `SidecarFiles.ReportsIffChanged` | k8s-sidecar/src/resources.py:166-204 | so does every flag of an object with distinct paths |
| `SidecarFiles.CollidingKeysOverstate` | k8s-sidecar/src/resources.py:52-56 | a config map with the keys `a` and `a.url` raises the flag although the file system ends as it began |
| `SidecarFiles.OpsForAt` | k8s-sidecar/src/resources.py:46-58 | the data keys lead to one file step each, in order, except base64 keys that end in `.url`, which lead to none |
| `Sidecar.ApplyConcat` | k8s-sidecar/src/resources.py:137-163 | data and binary data processed in turn are one sequence of file steps, with flags or-ed |
| `Sidecar.Process.constructor` | k8s-sidecar/src/resources.py:207-222 | a process starts with an empty version map and no notification |
| `Sidecar.Process.UpdateFile` | k8s-sidecar/src/resources.py:184-204 | performs one write or removal, or none for a base64 `.url` key, and answers true if and only if the file system changed |
| `Sidecar.Process.IterateData` | k8s-sidecar/src/resources.py:166-181 | performs the steps of all keys in order and ors their flags |
| `Sidecar.Process.ProcessSecret` | k8s-sidecar/src/resources.py:121-134 | performs the steps of the secret's data, if any |
| `Sidecar.Process.ProcessConfigMap` | k8s-sidecar/src/resources.py:137-163 | performs the steps of data and then of binary data, each if any; which entries get a file, and what is in it, is `SidecarEntries.EntryIsWritten` |
| `Sidecar.Process.SendNotifications` | k8s-sidecar/src/resources.py:257-261 | adds the script's run and then the request, each exactly if configured and files changed |
| `Sidecar.Process.ListResources` | k8s-sidecar/src/resources.py:89-118 | files, version map and notifications after a pass are those of the specified LIST pass, with the accumulated flag for config maps and the overwritten one for secrets |
| `Sidecar.Process.WatchEvent` | k8s-sidecar/src/resources.py:226-261 | one event moves files, version map and notifications by the specified step |
| `Sidecar.Process.WatchResourceIterator` | k8s-sidecar/src/resources.py:225-261 | the loop over a stream is the fold of that step |
| `SidecarRuns.StepKeepsCache` | k8s-sidecar/src/resources.py:232-241 | a processed event keeps every cache entry backed by a delivered object that is in place or deleted since |
| `SidecarRuns.SkippedIsQuiet` | k8s-sidecar/src/resources.py:232-236 | a skipped event is one whose files are already in place |
| `SidecarRuns.StepSimulates` | k8s-sidecar/src/resources.py:225-261 | from matching states one event leads the cached and the uncached loop to matching states |
| `SidecarRuns.CacheSimulation` | k8s-sidecar/src/resources.py:225-261 | on every event stream where a version names one object and content, deleted versions do not return and objects keep to their own paths, the loop with the version cache produces the files and notifications of the loop without it |
| `SidecarRuns.LastTouchDecides` | k8s-sidecar/src/resources.py:225-255 | after any run each path holds what the last event that touched it left, and untouched paths keep their file |
| `SidecarRuns.LiveObjectsAreMirrored` | k8s-sidecar/src/resources.py:166-261 | every file step of every live object has left its file with the last delivered content |
| `SidecarRuns.LiveDecides` | k8s-sidecar/src/resources.py:166-261 | the path of a live object holds what that object's last event left there |
| `SidecarRuns.MirrorExactIffNothingStale` | k8s-sidecar/src/resources.py:166-261 | every touched path holds exactly what a live object puts there, and nothing otherwise, if and only if no earlier state of an object left a path behind |
| `SidecarRuns.StaleBreaksMirror` | k8s-sidecar/src/resources.py:166-261 | each path left behind by itself makes the mirror inexact |
| `SidecarRuns.KeptKeysMirrorExactly` | k8s-sidecar/src/resources.py:166-261 | if no event drops a key or moves its object, the correspondence is exact |
| `SidecarRuns.CachedRunMirrors` | k8s-sidecar/src/resources.py:225-261 | the loop with the version cache mirrors live objects, and mirrors exactly if and only if nothing was left behind, too |
| `SidecarRuns.WatchNotifiesIff` | k8s-sidecar/src/resources.py:245-261 | a WATCH event notifies exactly when it changed a file, if and only if it is a deletion or overwrites and restores nothing |
| `SidecarExamples.DroppedKeyLeavesItsFile` | k8s-sidecar/src/resources.py:225-261 | an ADDED config map with two keys and a MODIFIED one with the first only: the second file stays, and the mirror is not exact |
| `SidecarLists.ListPlaces` | k8s-sidecar/src/resources.py:89-112 | a LIST pass leaves the files of all listed objects in place |
| `SidecarLists.ListIsIdempotent` | k8s-sidecar/src/resources.py:89-118 | an immediate second pass over the same items changes nothing and notifies nobody |
| `SidecarLists.ConfigMapFlagIffChanged` | k8s-sidecar/src/resources.py:109-110 | for config maps the pass's flag is raised if and only if some file changed |
| `SidecarLists.SecretFlagIsLastOnly` | k8s-sidecar/src/resources.py:111-112 | for secrets the flag says only whether the last secret's files were not in place before the pass |
| `SidecarLists.SecretPassNotifiesIff` | k8s-sidecar/src/resources.py:111-118 | a pass over secrets notifies rightly if and only if the last secret changed something or none did |
| `SidecarExamples.SecretChangeGoesUnnoticed` | k8s-sidecar/src/resources.py:89-118 | a pass over two secrets that writes a file and notifies nobody |
| `SidecarLists.ListRunSimulates` | k8s-sidecar/src/resources.py:92-112 | from matching states, a pass with the version cache gives the files of a pass without it, and for config maps the same flag |
| `SidecarLists.ListSimulation` | k8s-sidecar/src/resources.py:89-118 | over any number of passes the LIST loop with the version cache produces the files of the loop without it, and for config maps the same notifications |
| `SidecarLists.CachedSecretFlag` | k8s-sidecar/src/resources.py:97-112 | with the cache, the flag of a pass over secrets says whether the last secret it did not skip was out of place |
| `SidecarLists.SecretNotificationsAgreeIff` | k8s-sidecar/src/resources.py:97-118 | the cached and the plain pass over secrets notify alike if and only if it is not the case that the last secret is skipped and the last one processed changed something |
| `SidecarExamples.CachedSecretsNotifyMore` | k8s-sidecar/src/resources.py:97-118 | two passes over secrets after which the script has run twice with the cache and once without |
| `SidecarEntries.PlaceIsPath` | k8s-sidecar/src/resources.py:46-71 | the file of an entry: the folder is the annotation's if there is one (below the target folder if relative), the name is the key (without `.url`), made unique on request |
| `SidecarEntries.EntryIsWritten` | k8s-sidecar/src/resources.py:121-204 | after an ADDED or MODIFIED event every data entry, and every binary entry of a config map whose key does not end in `.url`, has its file with its content |
| `SidecarEntries.EntryIsRemoved` | k8s-sidecar/src/resources.py:199-204 | after a DELETED event none of these files exists |
| `SidecarEntries.OthersAreKept` | k8s-sidecar/src/resources.py:226-255 | an event changes no file but those of its object's entries |
| `SidecarEntries.ListedEntryIsWritten` | k8s-sidecar/src/resources.py:89-112 | after a LIST pass every entry of every listed object has its file with its content |
| `SidecarEntries.OthersAreKeptByList` | k8s-sidecar/src/resources.py:89-112 | a LIST pass changes no other file |
| `SidecarEntries.LiveEntriesAreMirrored` | k8s-sidecar/src/resources.py:225-261 | after any WATCH run, cached or not, every entry of every live object has its file with the content last delivered |
| `SidecarEntries.SlotHasOp` | k8s-sidecar/src/resources.py:137-181 | every such entry has its file step |
| `SidecarEntries.OpHasSlot` | k8s-sidecar/src/resources.py:137-181 | and every file step is that of an entry |
| `SidecarCache.CacheIs` | k8s-sidecar/src/resources.py:232-241 | after any run from an empty cache it holds, under namespace and name, the version delivered last, unless that very version was deleted since |
| `SidecarCache.SkipsIff` | k8s-sidecar/src/resources.py:232-261 | an event is skipped exactly if it is ADDED or MODIFIED with that version; any other one is processed, and notifies as its files report |
| `SidecarNames.SplitAtSeparator` | k8s-sidecar/src/helpers.py:142-155 | a text splits in one way at a separator that occurs in neither head |
| `SidecarNames.UniqueFilenameEqualIff` | k8s-sidecar/src/helpers.py:142-155 | with dot-free namespaces two unique names are equal if and only if namespace, resource and the text name.filename are |
| `SidecarNames.UniqueFilenameIsInjective` | k8s-sidecar/src/helpers.py:142-155 | with dot-free namespaces and names the unique name determines all four parts |
| `SidecarNames.DottedNamesCollide` | k8s-sidecar/src/helpers.py:142-155 | two objects, one with a dotted name, share a unique name |
| `SidecarNames.JoinedNamesEqual` | k8s-sidecar/src/helpers.py:59-59 | equal joined paths end in equal file names, whatever the folders |
| `SidecarWatchers.OwnView` | k8s-sidecar/src/resources.py:312-327 | on the paths a process owns, any interleaving does what the process does alone |
| `SidecarWatchers.ObservesAlone` | k8s-sidecar/src/resources.py:312-327 | with disjoint paths each process gets exactly the change flags it gets alone |
| `SidecarWatchers.WatchersCommute` | k8s-sidecar/src/resources.py:312-327 | any two interleavings of processes with disjoint paths reach the same file system |
| `SidecarWatchers.OneByOneIsSchedule` | k8s-sidecar/src/resources.py:312-327 | running the processes one after another is one of the interleavings |
| `SidecarWatchers.ProgramIsWatchRun` | k8s-sidecar/src/resources.py:225-261 | a watcher's sequence of file steps, performed, gives the files of its watch run |
| `SidecarWatchers.SamePathSameOrigin` | k8s-sidecar/src/helpers.py:142-155 | with unique file names a shared path implies the same resource kind and namespace |
| `SidecarWatchers.SeparatedWatchersCommute` | k8s-sidecar/src/resources.py:312-327 | with unique file names, watchers of different (resource, namespace) pairs, interleaved in any way, end as if run one after another, and none sees another's work |
| `ResourceStream.StepDelivers` | grafana/pkg/api/plugin_resource.go:164-219 | every step keeps: sent bodies are the written ones followed by the one in hand |
| `ResourceStream.StepKeepsHeader` | grafana/pkg/api/plugin_resource.go:184-208 | every step keeps the header discipline |
| `ResourceStream.StepKeepsSafe` | grafana/pkg/api/plugin_resource.go:254-287 | every step keeps the agreement between the close flag, the channel and the positions of both goroutines |
| `ResourceStream.StepKeepsResults` | grafana/pkg/api/plugin_resource.go:151-182 | every step keeps the agreement between the flusher's verdict, the cancellation and the error the handler has read |
| `ResourceStream.RunKeepsInv` | grafana/pkg/api/plugin_resource.go:137-219 | all of these hold in every state of every run |
| `ResourceStream.Delivery` | grafana/pkg/api/plugin_resource.go:137-219 | in every interleaving, cancelled or not, written bodies are an in-order prefix of the successfully sent ones, lag by at most one, and equal them once the handler returned |
| `ResourceStream.HeaderDiscipline` | grafana/pkg/api/plugin_resource.go:184-212 | the status is written at most once, before every body, is the first response's, and once a body is written it is there exactly when that response has headers |
| `ResourceStream.ClosedExactlyOnce` | grafana/pkg/api/plugin_resource.go:144-287 | in every run the channel is closed at most once, and is closed when the handler waits; unless cancelled after a written body nothing panics, the handler closes, and no Send meets a closed channel; without cancellation the flusher leaves only through the close |
| `ResourceStream.NothingSentAfterClose` | grafana/pkg/api/plugin_resource.go:254-287 | once closed, the channel stays closed and no Send succeeds |
| `ResourceStream.NoDeadlock` | grafana/pkg/api/plugin_resource.go:144-161 | in every run, until the handler returns, some step other than a cancellation is possible or a panic has happened |
| `ResourceStream.WaitTerminates` | grafana/pkg/api/plugin_resource.go:144-149 | while the handler waits, every step but a cancellation strictly reduces the flusher's remaining work |
| `ResourceStream.FlushErrorIsNeverReported` | grafana/pkg/api/plugin_resource.go:151-161 | in every run the only flush error the handler can report is that of a cancellation before the first body; without cancellation it reads none, although the flusher fails exactly when nothing was sent |
| `ResourceStream.SafetyStays` | grafana/pkg/api/plugin_resource.go:254-287 | a state that is not at risk stays so under every step, cancellations included |
| `ResourceStream.TowardsApproaches` | grafana/pkg/api/plugin_resource.go:164-287 | from every reachable state at risk some step leads closer to a panic |
| `ResourceStream.PanicsIff` | grafana/pkg/api/plugin_resource.go:137-287 | for every reachable state, some continuation panics if and only if the state is at risk: a goroutine is past its last check before a channel the other one closes, or the closed flag is not set and the flusher can still come to close after a cancellation |
| `ResourceStream.FlagEndsTheRisk` | grafana/pkg/api/plugin_resource.go:144-161 | every request can panic when it starts; while the handler waits it can only if the flusher has already read the flag as unset; after the return it cannot |
| `ResourceStream.LateCancellationPanics` | grafana/pkg/api/plugin_resource.go:175-182 | a run that delivers one response, is cancelled and closes the channel twice |
| `LoginLimiter.Combine` | grafana/pkg/login/auth.go:61-98 | for each answer, exactly which database and LDAP answers lead to it; none leads to the answers that keep a call from the providers |
| `LoginLimiter.AuthenticatorService.ValidateLoginAttempts` | grafana/pkg/login/brute_force_login_protection.go:11-35 | blocks if and only if the protection is on and at least five rows of the user are no more than 300 seconds old; fails if and only if the protection is on and the store fails |
| `LoginLimiter.AuthenticatorService.AuthenticateUser` | grafana/pkg/login/auth.go:52-99 | for each answer, exactly when it is given: a failing count, too many attempts, an empty password, welcome (an asked provider accepted, and none before it decided) and invalid credentials; one row is added exactly for the last of these, where the protection is on and the store can save it |
| `LoginRuns.FirstKept` | grafana/pkg/services/loginattempt/loginattemptimpl/store.go:42-71 | the deletion job removes everything up to the last expired row and keeps only rows that are not expired |
| `LoginRuns.CleanupDeletes` | grafana/pkg/services/cleanup/cleanup.go:241-255 | a row goes exactly when it, or a row inserted after it, is more than ten minutes old |
| `LoginRuns.DeletedRowsAreExpired` | grafana/pkg/services/cleanup/cleanup.go:241-255 | cleanup never changes what a later count finds |
| `LoginRuns.BeginKeepsInv` | grafana/pkg/login/brute_force_login_protection.go:16-35 | starting a call keeps the invariant |
| `LoginRuns.FinishKeepsInv` | grafana/pkg/login/brute_force_login_protection.go:37-48 | answering a call, with or without a record, keeps it |
| `LoginRuns.CleanupKeepsInv` | grafana/pkg/services/cleanup/cleanup.go:241-255 | cleanup at any time keeps it |
| `LoginRuns.RunKeepsInv` | grafana/pkg/login/brute_force_login_protection.go:16-48 | the invariant holds in every state of every run |
| `LoginRuns.WindowBoundFromInv` | grafana/pkg/login/brute_force_login_protection.go:16-48 | the invariant limits the failures in any window to 4 + k |
| `LoginRuns.WindowBound` | grafana/pkg/login/brute_force_login_protection.go:16-48 | with at most k calls of a user in flight, no closed five-minute window holds more than 4 + k recorded failures (5 when sequential) |
| `LoginRuns.AnswersAreRecorded` | grafana/pkg/login/auth.go:86-92 | a window holds exactly as many rows of a user as times the user was told "invalid credentials" in it |
| `LoginRuns.AnswerBound` | grafana/pkg/login/auth.go:52-99 | the same bound for those answers |
| `LoginTight.WindowBoundIsTight` | grafana/pkg/login/brute_force_login_protection.go:11-48 | for every k >= 1 some run reaches 4 + k |
| `DashboardAcl.ValidatePermissionsUpdate` | grafana/pkg/api/dashboard_permission.go:275-286 | accepts if and only if no entry mixes principals, and otherwise reports what the first mixed entry mixes |
| `DashboardAcl.UpdateDashboardAccessControl` | grafana/pkg/api/dashboard_permission.go:214-260 | the nested loops produce the set commands of all items followed by the clear commands of the old entries none of them matches; what the levels in them allow is `DashboardRights.RightsAfterUpdate` |
| `DashboardAcl.SetPermissions` | grafana/pkg/services/accesscontrol/resourcepermissions/service.go:207-255 | the validating loop and the transaction give the replayed permissions if every command names a known principal and a known level, and otherwise nothing is changed |
| `DashboardAcl.UpdatedIff` | grafana/pkg/services/accesscontrol/resourcepermissions/service.go:207-255 | the service refuses a diff if and only if some item, or some old entry to be cleared, names an unknown principal |
| `DashboardAcl.UpdateIsRequest` | grafana/pkg/api/dashboard_permission.go:214-286 | validation, diff and service end to end: for all accepted items and old entries that list the current principals, the update is refused for an unknown principal or the permissions become exactly the requested ones |
| `DashboardAcl.AcceptedEntriesNameAtMostOne` | grafana/pkg/api/dashboard_permission.go:275-286 | for every entry, when it names exactly one principal, and such an entry is accepted; validation lets an entry with more parts through only if one of its ids is negative |
| `DashboardRights.SetResourcePermission` | grafana/pkg/services/accesscontrol/resourcepermissions/store.go:203-252 | deleting the rows that are not wanted and creating the missing ones leaves a principal exactly the wanted actions |
| `DashboardRights.CarriedIsReplay` | grafana/pkg/services/accesscontrol/resourcepermissions/store.go:169-252 | carrying out the commands in actions gives every principal the actions of its level after the replay |
| `DashboardRights.RequestedIsLast` | grafana/pkg/api/dashboard_permission.go:216-231 | the requested level of a principal is that of the last item about it |
| `DashboardRights.LevelsAsNumbers` | grafana/pkg/models/dashboard_acl.go:12-25 | which of the numbers 1, 2 and 4 allow reading, writing, deleting and changing permissions, for dashboards and folders |
| `DashboardRights.LevelsAreNested` | grafana/pkg/services/accesscontrol/ossaccesscontrol/permissions_services.go:111-113 | View < Edit < Admin, strictly, for dashboards and folders |
| `DashboardRights.RightsAfterUpdate` | grafana/pkg/api/dashboard_permission.go:214-286 | after an update that is not refused, a principal may read exactly if the last item about it says 1, 2 or 4, write and delete if it says 2 or 4, and see and change permissions if it says 4 |
| `DashboardAcl.MatchesIffSamePrincipal` | grafana/pkg/api/dashboard_permission.go:233-247 | for entries with one principal (up to a stray team id beside a user) the three-way match is equality of principals |
| `DashboardAcl.ReplaySets` | grafana/pkg/services/accesscontrol/resourcepermissions/store.go:169-199 | replaying the set commands gives every mentioned principal its requested level (the last item wins) and touches no other |
| `DashboardAcl.ReplayClears` | grafana/pkg/services/accesscontrol/resourcepermissions/store.go:169-199 | replaying the clear commands removes exactly the principals of old entries that match no item |
| `DashboardAcl.DiffReplayIff` | grafana/pkg/api/dashboard_permission.go:214-260 | for all entries whatsoever, replaying the diff gives the requested permissions plus those of principals nobody mentions if and only if no requested principal has an unmatched old entry and every dropped one has |
| `DashboardAcl.DiffReplay` | grafana/pkg/api/dashboard_permission.go:214-260 | for entries with one principal each it always does |
| `DashboardAcl.DiffReplayIsRequest` | grafana/pkg/api/dashboard_permission.go:214-260 | when the old entries list every current principal, the result is the requested map and nothing else |
| `DashboardAcl.NeverSetAndCleared` | grafana/pkg/api/dashboard_permission.go:214-260 | no principal is both set and cleared |
| `DashboardAcl.TwoPrincipalsLeaveResidue` | grafana/pkg/api/dashboard_permission.go:233-279 | the diff needs the validation: an entry with two principals, which validation refuses, would keep an old team permission that it does not request |
| `WriteDiffer.Differ.Merge` | grafana/pkg/codegen/diffwrite.go:125-134 | succeeds if and only if no key is present already, and then adds exactly the other set; a refused merge has added some part of it and changed no old entry |
| `WriteDiffer.MergeEach` | grafana/pkg/codegen/diffwrite.go:125-134 | merging file sets one after another succeeds exactly when the fold does, and leaves its result |
| `WriteDiffer.MergeAllIffDisjoint` | grafana/pkg/codegen/diffwrite.go:125-134 | merging a list succeeds if and only if its key sets are pairwise disjoint, and gives their union |
| `WriteDiffer.MergeOrderIrrelevant` | grafana/pkg/codegen/diffwrite.go:125-134 | merging in another order gives the same verdict and the same set |
| `WriteDiffer.Verify` | grafana/pkg/codegen/diffwrite.go:46-77 | no error if and only if every file is there with its contents; each failing path is reported and no other |
| `WriteDiffer.WriteKeepsInv` | grafana/pkg/codegen/diffwrite.go:80-100 | every interleaving of truncating and writing workers keeps: finished files hold their contents unless a sharing worker is half way, and other paths are untouched |
| `WriteDiffer.WriteThenVerifyIff` | grafana/pkg/codegen/diffwrite.go:46-100 | after a completed Write, under every scheduling, all files verify if and only if items that share a cleaned path share their contents |
| `WriteDiffer.WriteIsDeterministic` | grafana/pkg/codegen/diffwrite.go:80-100 | with such items the final disk does not depend on the scheduling |

## Left out

- Decoding of requests from JSON (unmarshalling of queries and commands, the list of supported
  threshold functions): a query carries its decoded command or its decoding error. The hide flag
  also travels inside the JSON that a datasource receives; its answer is taken not to depend on it.
- Floating-point arithmetic: `+ - * / ** %`, the built-in math functions, reducing and resampling
  of a series, number scanning by the standard library and the Unicode classes are parameters.
  Thresholds are over reals with NaN; signed zero and infinities of the bounds are not modelled.
- ThresholdVerdict.FarValuesGetIntendedVerdict: like VerdictIntendedIff, it is about the bounds as
  printed; they are the bounds as read only for an exact reader (ExactTest). The original's reader
  rounds to the nearest float64 and refuses what is out of range.
- ThresholdText.LexComparison: a threshold with too few bounds panics in the original, before any
  text is made; here making the text is an error.
- MathEval.WalkIsLocal: where the original panics, or holds a nil value, the model's walk has an
  arbitrary answer of the function library. MathPanics follows both inside one expression and
  MathPanicCauses says exactly when they arise; a nil value that flows on into other nodes (they
  panic on it, too) is not followed.
- MathPrint.PrintParses: about the printed texts of trees, which have one space after each token
  and no needless parentheses; other spellings of a tree are not covered.
- Notices, metadata and display configuration of data frames.
- The operators of the math language loop over values in the original; here they are recursive
  functions, because the values are immutable there.
- The error list of the graph library's sort: the sort here is written and proved anew and only
  tells that there is a cycle.
- Querying of datasources: a parameter that gives each node its result. The conversion of its
  frames is modelled where it has structure (wide frames, number tables); the choice between the
  conversions and the time series schema detection are not.
- Conversion of text and other column types to floats when a series is made from a frame.
- Sidecar failures: permission errors, failed downloads, retries, file modes; event types other
  than ADDED, MODIFIED and DELETED; a download is a fixed function of its address; SHA-256
  equality is content equality; a file write is one step. The download of a base64 `.url` key
  always fails, because its decoded address is bytes; such a key has no file step here.
- The login clock is one monotone clock in seconds; recording a failure and answering are one
  step; store failures occur only in AuthenticateUser. Password hashing and the LDAP server are
  parameters.
- Failed writes to the HTTP response, and the header names that are filtered or added.
- The deferred cancellation at the end of the resource handler: both goroutines are done by then.
- DashboardAcl.UpdateIsRequest: which users, teams and roles exist is a given set; inherited
  permissions and the hooks run after a change are not modelled.
- WriteDiffer.Verify: the order of the reported errors, directory and write failures, and the
  limit of twelve workers (every interleaving is allowed) are not modelled.
- All other HTTP handlers, routing, roles, middleware, code generation, charts and scripts: they
  would only add per-branch claims.
