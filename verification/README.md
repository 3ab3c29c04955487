# A verified model of the kubeka workflow engine

kubeka reads config nodes, expands them into call trees, substitutes dynamically scoped symbols in
those trees, checks the result, and runs it with rollback on failure. This project models these
steps and proves what they promise for every input, every dependency graph, every symbol table and
every run. `dafny verify dfyconfig.toml` checks all of it.

## How the model is built

Where the C code changes things in place, a class or a method with loops does so here, proved equal
to a function on values; the theorems are about those functions, so they hold of the methods.

| file | what it models |
|---|---|
| `Tables.dfy`, `Text.dfy`, `Wrappers.dfy` | symbol tables as values, the C string calls, array formatting |
| `ArrayLiteral.dfy`, `SymbolTable.dfy` | `kbsym.c` and the array helpers of `kbutil.c`: the two-pass literal parser, the table with its arrays on the heap |
| `Expansion.dfy`, `Nodes.dfy` | `kbnode.c`: expansion of the node list into a tree, as a function and as linked objects |
| `Substitution.dfy`, `Agreement.dfy`, `Cycles.dfy` | `kbtree.c`: the rewrite loop on text, what it means, for which values that is the same, and when the loop ends |
| `Evaluation.dfy`, `Scoping.dfy`, `Evaluator.dfy` | `kbtree.c`: evaluation of a tree, as a relation on values; what it makes of each value of each node; and in place |
| `Execution.dfy`, `Composition.dfy`, `Runs.dfy`, `ExitCodes.dfy`, `Compensation.dfy`, `Failures.dfy` | `kbbi.c`: the interpreter, how a run is made of its parts, its return code, the commands it executes, its failures, rollbacks and warnings |
| `Periodic.dfy` | the thread of a periodic node |
| `Linting.dfy`, `Activity.dfy`, `Soundness.dfy`, `MissingIds.dfy`, `Pipeline.dfy` | the checks of the main program, what a lint without errors promises, and the whole preparation of trees |
| `Framing.dfy` | the pipe protocol of `kbexec.c` and its growing buffer |

**Expansion.** `Instantiate` follows `node_instantiate`: a node's dependencies are its jobs in order
and then, signal by signal, the handlers; a dangling reference counts an error and is skipped; an
ID found among the ancestors of the node's *parent* ends the expansion with NULL. Because the node
itself is not looked at, a self-reference is caught one level late. `Nodes.NodeInstantiate` builds
the same tree out of fresh objects linked both ways; `Represents` says that a tree of objects stands
for a tree of values and shares nothing.

**Substitution.** `Iterate` is the loop that replaces the leftmost `$<name>` by text. `Expand` is the
reference meaning: each reference stands for the nearest definition of its name, itself expanded
from the same node; a dangling reference and a `$<` without `>` fail. Values are arbitrary strings.
`WellFormed` asks of a value that no other `$` stands directly before a reference and that names
contain no blank and no `$<`. A `$` at the end and a `$<` that is never closed are covered. A symbol
that is referred to must besides not end in `$` or in an unclosed `$<`, because text may follow the
reference. `AgreesIffWellFormed` says that for properly named references this is exactly what makes
loop and meaning agree.

**Evaluation.** `Evaluates` relates a tree to what the loops make of it, with the keys of each table
taken in any order. `NoErrorsIffResolved` holds of that relation, for values of every form. Where
values are well formed, `EvaluationIsExpansion` says that the result is the expansion.

**Execution.** The exit codes of shell commands are an arbitrary function of how many were run before.
A run reports a trace of events, each with the path of its node in the tree. Codes are combined as in
the source: added over handlers, OR-ed (in two's complement) over commands, and taken from the failing
job. Because they are added, two handlers can cancel each other; `TruthfulIffUnambiguous` says for which
trees that can happen.

**Objects and values.** The interpreter, the checks and the thread loop work on tree values; the
tables, instantiation and evaluation work on objects.

## Model

| member | source | states |
|---|---|---|
| Substitution.RewritingIsExpansion | kubeka/src/kbtree.c:285-318 | for a value without `$` directly before a reference, in every scope whose referenced symbols are well formed: the in-place rewrite loop ends with a result exactly when recursive expansion under dynamic scoping has that result, text or failure; so it diverges exactly when the expansion is infinite |
| Substitution.RewritingIsExpansionOfTokens | kubeka/src/kbtree.c:291-309 | the same for any list of literals, references and unclosed references and the text it renders to |
| Agreement.AgreesIffWellFormed | kubeka/src/kbtree.c:298 | for a value with properly named references: loop and recursive expansion agree in every scope of well-formed symbols exactly when no other `$` stands directly before a reference |
| Cycles.LoopEndsIffNoWayBack | kubeka/src/kbtree.c:291-309 | in every scope of well-formed symbols, dangling references included, the loop ends on every symbol exactly when no symbol's expansion comes back to it along references that are reached, that is, before which nothing fails |
| Cycles.LoopEndsIffAcyclic | kubeka/src/kbtree.c:291-309 | in a scope of well-formed symbols without dangling or unclosed references the loop ends on every symbol exactly when no path of references returns to where it was |
| Cycles.AcyclicExpands | kubeka/src/kbtree.c:291-309 | without a way back, the nesting of an expansion is at most the number of visible symbols |
| Cycles.CircularNeverEnds | kubeka/src/kbtree.c:291-309 | a concrete symbol that refers to itself, which the loop never finishes, however often it is repeated |
| Substitution.MeaningIsUnique | kubeka/src/kbtree.c:285-318 | a value has at most one recursive expansion, however deep the nesting that is allowed |
| Agreement.DollarJoins | kubeka/src/kbtree.c:298 | `$$<a>` is a value for which some scope makes loop and expansion differ; `kill $$` and the unclosed `$$<a` are well formed |
| Substitution.RenderSubst | kubeka/src/kbtree.c:298 | replacing every occurrence of a reference in the text replaces exactly the references of that name in the value, never parts of others |
| Substitution.NextRefIsFirst | kubeka/src/kbtree.c:195-225 | the search by `$<` and `>` finds the first reference of a value, an unclosed one as such, or none exactly when there is none |
| Substitution.TextHasNoRef | kubeka/src/kbtree.c:291-309 | for every string and every scope: a text that the loop ends with contains no `$<`, and a string without `$<` stays as it is |
| Substitution.SubstKeepsMeaning | kubeka/src/kbtree.c:291-309 | one pass of the loop keeps the expansion of a value and lowers the number of passes still needed |
| Substitution.FormatTokensRender | kubeka/src/kbutil.c:58-85 | a symbol with any list of values is substituted as its array literal, whose references are those of the values |
| Substitution.TokensKeepMeaning | kubeka/src/kbtree.c:270-320 | overwriting any values of the visible tables by their expansions changes no expansion, as long as the symbols referred to are well formed |
| Substitution.ExpansionIsLiteral | kubeka/src/kbtree.c:291-317 | an expansion never contains `$<`, in scopes whose referenced symbols are well formed |
| Evaluation.KeyOrderDoesNotMatter | kubeka/src/kbtree.c:270-321 | although earlier keys are overwritten before later ones are read, every order of the keys gives the same table and error count: the expansions of the values at the start |
| Evaluation.MeaningStays | kubeka/src/kbtree.c:285-320 | half-way through a table, a raw value still expands to what it expanded to at the start |
| Evaluation.NoErrorsIffResolved | kubeka/src/kbtree.c:227-325 | for values of every form and every order of the keys: an evaluation that ends reports no error exactly when every node knows its origin and no `$<` is left anywhere; tree, keys and array lengths are unchanged, and values without `$<` too |
| Evaluation.EvaluationIsExpansion | kubeka/src/kbtree.c:227-325 | every evaluation of a tree with well-formed values gives the same tree and errors; without errors each value is the expansion of the raw one from its own node |
| Evaluation.EvaluableEnds | kubeka/src/kbtree.c:285-320 | when the raw value of every key expands, every loop of the evaluation ends, although it reads tables that are partly overwritten |
| Evaluation.EvaluatedTable | kubeka/src/kbtree.c:285-320 | for one node: when no key breaks, every value of the new table is the expansion of the value at the start |
| Evaluation.ValuesUpToAFailure | kubeka/src/kbtree.c:285-320 | a value is replaced by its expansion exactly when it and all values before it in its array have one |
| Evaluation.EvaluationIsIdempotent | kubeka/src/kbtree.c:227-325 | evaluating a resolved tree again changes nothing, below any ancestors |
| Evaluation.ResolvedEvaluates | kubeka/src/kbtree.c:227-325 | a resolved tree has an evaluation, without errors, to itself |
| Evaluation.AcyclicIsEvaluable | kubeka/src/kbtree.c:291-309 | when no symbol visible from any node is cyclic, the evaluation of every value of the tree ends |
| Tables.LookupIsNearest | kubeka/src/kbnode.c:1099-1107 | dynamic scoping: the first table that has the symbol decides, and the symbol is unknown exactly when no table has it |
| Scoping.ValuesSeeTheirAncestors | kubeka/src/kbtree.c:227-325 | after an error-free evaluation, the node at every path has its keys and each value is the expansion of the raw one in the tables on the way from the root to that node |
| Scoping.LowestDefinition | kubeka/src/kbnode.c:1099-1107 | in these tables a symbol has the values of the lowest node on the way from the root that defines it, and none exactly when no node does |
| Evaluator.Resolve | kubeka/src/kbnode.c:1099-1107 | the walk up the parents returns the values of the first table in the chain that has the symbol, and NULL exactly when none has it |
| Evaluator.FindNextRef | kubeka/src/kbtree.c:195-225 | the copied name is the one between the first `$<` and the next `>` |
| Evaluator.EvalPass | kubeka/src/kbtree.c:291-309 | one pass over the objects is one step on the tables they hold, when the name is no builtin call |
| Evaluator.EvalValue | kubeka/src/kbtree.c:287-309 | the loop over the objects computes the result of the rewriting |
| Evaluator.WriteValue | kubeka/src/kbnode.c:608-623 | one string of one array is replaced, nothing else |
| Evaluator.EvalKey | kubeka/src/kbtree.c:285-320 | the values of a key become the results of their loops up to the first that fails, which counts one error; the other keys stay |
| Evaluator.EvalOwn | kubeka/src/kbtree.c:270-321 | in whichever order keys are taken, the table holds the results of their loops, with one error for each key that fails |
| Evaluator.EvalChildren | kubeka/src/kbtree.c:246-259 | children are evaluated in the scope of the unevaluated tables above them, and keep apart |
| Evaluator.EvalNode | kubeka/src/kbtree.c:227-325 | whenever the loops end: objects that stood for a tree stand for its evaluation, with its errors; only its own value arrays change |
| Text.FormatArray | kubeka/src/kbutil.c:58-85 | the loop with its changing delimiter writes the array form |
| Text.FormatIs | kubeka/src/kbutil.c:58-85 | the text of an array: nothing, the one value, or `[ a ,b ,c ]`, one value at a time |
| Expansion.ExpansionIsExact | kubeka/src/kbnode.c:364-442 | with unique IDs, no error is added exactly when everything reachable is sound and no cycle is reachable; the tree is then the graph's unfolding, jobs in order and handlers in signal order, and no ID repeats on a branch |
| Expansion.NullIffCyclic | kubeka/src/kbnode.c:406-427 | NULL is returned exactly when a cycle is reachable, although only the parent's ancestors are searched |
| Expansion.NoSelfCall | kubeka/src/kbnode.c:406-420 | a node that calls itself never survives the check that comes one level late |
| Expansion.UnfoldingIsUnique | kubeka/src/kbnode.c:364-442 | a graph has at most one unfolding from a node |
| Expansion.TreeHasNoRepeats | kubeka/src/kbnode.c:406-420 | in every returned tree, erroneous or not, no ID occurs twice on the way to a node |
| Expansion.ErrorAccounting | kubeka/src/kbnode.c:399-427 | the errors are the dangling references met plus the nodes without dependencies met plus, for NULL, the length of the chain to the node that found the cycle; a returned tree shows each of them |
| Expansion.UnusedShrinks | kubeka/src/kbnode.c:131-144 | the measure by which expansion ends on every graph: IDs not yet above, then whether the node repeats one that is |
| Expansion.ChainsAreBounded | kubeka/src/kbnode.c:406-427 | no chain of ancestors ever built, even in a failing attempt, is longer than the number of nodes plus one; a returned tree is exactly as high as the longest chain |
| Expansion.HandlerMultiplicity | kubeka/src/kbnode.c:199-244 | a node that handles k of the emitted signals is among the handler children k times |
| Expansion.SignalDepsAre | kubeka/src/kbnode.c:199-244 | the handler dependencies are the handling nodes, signal by signal, and every signal has one |
| Expansion.HandlersAreNodes | kubeka/src/kbnode.c:856-871 | the handlers of a signal are exactly the nodes of the list with that signal among their HANDLES |
| Expansion.HandlersInOrder | kubeka/src/kbnode.c:856-871 | the filter keeps the order of the list |
| Expansion.SignalsInOrder | kubeka/src/kbnode.c:199-244 | the handlers come signal by signal |
| Expansion.DependenciesAre | kubeka/src/kbnode.c:151-256 | a node has dependencies exactly when it knows its origin and each of its signals has a handler; they are its jobs in order and then the handlers' IDs |
| Expansion.FindsTheFirst | kubeka/src/kbnode.c:118-129 | the first node with the ID is found, or none exactly when no node has it |
| Expansion.NoErrorsUnfold | kubeka/src/kbnode.c:364-442 | without errors, and whether or not IDs are unique, the tree unfolds the graph in which every child is the node found by its ID |
| Nodes.NodeFindById | kubeka/src/kbnode.c:118-129 | the search over objects finds the first node with the ID |
| Nodes.FilterHandlers | kubeka/src/kbnode.c:856-871 | the handlers of one signal, in the order of the list, which are those of `HandlersAreNodes` |
| Nodes.FindHandlers | kubeka/src/kbnode.c:199-244 | the handlers of all signals, or failure at the first signal without one |
| Nodes.FindDependentJobs | kubeka/src/kbnode.c:151-256 | the dependencies of a node as the specification gives them |
| Nodes.NodeFindParent | kubeka/src/kbnode.c:131-144 | the recursion up the parents returns the nearest node of the chain with that ID, and NULL exactly when there is none |
| Nodes.FindNode | kubeka/src/kbnode.c:93-105 | the position of the object, and the list without it |
| Nodes.NewNode | kubeka/src/kbnode.c:286-352 | a fresh node with a fresh copy of the symbols, last in one list of its parent |
| Nodes.GiveUp | kubeka/src/kbnode.c:258-284 | a node that is given up leaves its parent's lists as they were before it was created |
| Nodes.RankIsEnough | kubeka/src/kbnode.c:422-427 | the recursion of instantiation over objects ends on every graph |
| Nodes.InstantiateOne | kubeka/src/kbnode.c:397-428 | one round of the loop: skip, give up, or attach the child's tree |
| Nodes.InstantiateChildren | kubeka/src/kbnode.c:397-428 | the whole loop; the children built so far never share an object |
| Nodes.NodeInstantiate | kubeka/src/kbnode.c:364-442 | NULL, errors and tree are those of the specification; the tree is made of fresh objects, linked to the parent, and no object that existed before changes except the parent's child lists |
| Pipeline.InstantiateEntryPoints | kubeka/src/kubeka.c:498-514 | the trees of all periodic and entrypoint nodes that could be instantiated, in order, and all their errors |
| Pipeline.OnlyEntryPoints | kubeka/src/kubeka.c:498-514 | a periodic or entrypoint node adds its tree, unless it fails, and its errors; a job node adds nothing |
| Pipeline.TreesInOrder | kubeka/src/kubeka.c:498-514 | the trees and errors of a list are those of its parts, in order |
| Pipeline.Prepare | kubeka/src/kubeka.c:498-536 | after instantiating every entry point and evaluating every tree whose loops end, the nodes that were read still have all their symbols, the trees stand for evaluations of the expansions, and the errors are those of both phases |
| Pipeline.EveryEntryPointIsLinted | kubeka/src/kubeka.c:453-536 | when the checks and the preparation count no error, the tree of every entry point meets the assumption of `LintIsSound` |
| Pipeline.ForestApart | kubeka/src/kbsym.c:181-224 | no two nodes of the resulting trees share a node, a symbol table or a value array |
| SymbolTable.SymTab.Set | kubeka/src/kbsym.c:334-429 | the table refines the update of a plain map; a refused assignment changes nothing |
| SymbolTable.SymTab.Append | kubeka/src/kbsym.c:431-507 | the same for appending, by index or at the end |
| SymbolTable.SymTab.AppendAt | kubeka/src/kbsym.c:479-497 | text is added to one string in place |
| SymbolTable.SymTab.AppendLast | kubeka/src/kbsym.c:471-477 | a value is added at the end, in a new array |
| SymbolTable.SymTab.ApplyOps | kubeka/src/kbnode.c:735-797 | any sequence of unforced sets and appends is the fold over the plain map |
| SymbolTable.SymTab.SetSingle | kubeka/src/kbnode.c:608-623 | one element is replaced, or nothing when it does not exist |
| SymbolTable.SymTab.Copy | kubeka/src/kbsym.c:181-224 | a copy with the same contents in fresh arrays; NULL exactly for an empty table |
| SymbolTable.SymTab.GetStrings | kubeka/src/kbsym.c:226-237 | the strings of the array when there is one, and else nothing |
| SymbolTable.SymTab.GetString | kubeka/src/kbsym.c:530-537 | the first string, or the empty one |
| SymbolTable.SymTab.KnowsSource | kubeka/src/kbnode.c:568-590 | whether file, line and ID all have a value |
| SymbolTable.ApplyTouchesOne | kubeka/src/kbsym.c:334-507 | an operation changes at most the symbol it names, and never a read-only one |
| SymbolTable.ReadOnlySymbolsStay | kubeka/src/kbsym.c:317-331 | over any sequence of operations no stored key contains a bracket and no symbol starting with `_` appears, disappears or changes |
| SymbolTable.AssignmentForms | kubeka/src/kbsym.c:348-422 | what the two forms of assignment do: the indexed one replaces the array whatever the index, the plain one sets the first element or refuses a list |
| SymbolTable.KeyForms | kubeka/src/kbsym.c:258-308 | a plain key names its first element; the character after the bracket tells the other forms, which need a closing bracket |
| SymbolTable.IndexForm | kubeka/src/kbsym.c:297-303 | digits in brackets are an index |
| SymbolTable.AppendElement | kubeka/src/kbsym.c:472-478 | `name[]` adds a value at the end |
| SymbolTable.AppendText | kubeka/src/kbsym.c:479-497 | the plain name adds a blank and text to the first string, or makes it |
| SymbolTable.AppendTextAt | kubeka/src/kbsym.c:463-497 | `name[i]` adds text to string i, and is refused when there is none |
| SymbolTable.Refusals | kubeka/src/kbsym.c:348-368 | read-only symbols, unclosed literals and, for appending, other array forms are refused |
| SymbolTable.OpsInOrder | kubeka/src/kbnode.c:735-797 | operations take effect in order, and a refused one has none |
| ArrayLiteral.FormatParsesBack | kubeka/src/kbsym.c:33-82 | parsing the formatted form of a list returns the list exactly when it has one element that does not open a bracket, or several that are trimmed and free of `,` and `]` |
| ArrayLiteral.ParsedIsClean | kubeka/src/kbsym.c:33-82 | a bracketed literal parses to trimmed elements without `,` and `]` |
| ArrayLiteral.ParseIs | kubeka/src/kbsym.c:33-82 | a value that opens a bracket is the trimmed tokens up to the first `]`, and an error without one; any other value is itself |
| ArrayLiteral.TokensArePieces | kubeka/src/kbsym.c:63-80 | the tokens are the pieces between commas without the empty ones |
| ArrayLiteral.TrimIsMiddle | kubeka/src/kbsym.c:63-80 | trimming takes away white space only, and only at the ends |
| ArrayLiteral.StrTok | kubeka/src/kbsym.c:63-80 | one call of the tokenizer splits off the first of the remaining tokens |
| ArrayLiteral.ParseValue | kubeka/src/kbsym.c:33-82 | the second pass fills exactly the array that the first pass sized |
| ArrayLiteral.CopyArray | kubeka/src/kbutil.c:209-240 | an equal array in fresh memory |
| ArrayLiteral.AppendArray | kubeka/src/kbutil.c:99-115 | the array with one more element |
| Execution.RunTree | kubeka/src/kbbi.c:107-212 | the interpreter computes the run of the specification: return code, events, counters |
| Composition.HandlersRun | kubeka/src/kbbi.c:130-151 | a located node with handlers that answer its signals runs all of these in order, each after the other, and nothing else, and returns the sum of their codes |
| Composition.CommandsRun | kubeka/src/kbbi.c:153-167 | else, a node with commands runs exactly these, in order, and each bit of its code is set exactly when some command's code has it |
| Composition.JobsRun | kubeka/src/kbbi.c:170-202 | else, a node with jobs runs these up to the first that does not return 0, returns its code, and then rolls back |
| Composition.NothingRuns | kubeka/src/kbbi.c:123-127 | a node with none of these returns 0 after a complaint; one that does not know its origin returns 1 and counts an error |
| Composition.CommandsGetTheirCodes | kubeka/src/kbbi.c:89-164 | the shell commands of a run, rollbacks included, get the exit codes one after the other, none is skipped or reported twice |
| Composition.OrIsBitwise | kubeka/src/kbbi.c:157 | every bit of the combined code is the OR of the bits, for negative codes too |
| Execution.CommandsAre | kubeka/src/kbbi.c:153-161 | the commands of a node are the longest prefix of its EXEC without an empty one |
| Execution.RunHandlerLoop | kubeka/src/kbbi.c:141-149 | every handler is run, in order, and the codes are added |
| Execution.RunCommandLoop | kubeka/src/kbbi.c:153-164 | commands are run up to the first empty one, as `CommandsAre` says, and the codes are OR-ed |
| Execution.RunJobLoop | kubeka/src/kbbi.c:171-199 | jobs are run up to the first failure, which triggers the rollback |
| Execution.RollBackLoop | kubeka/src/kbbi.c:180-192 | the descending loop and the extra call visit jobs i down to 0 |
| Execution.UndoAll | kubeka/src/kbbi.c:68-105 | one visit: all ROLLBACK commands in order, empty ones included, or a warning when there are none or the first is empty; two errors for a node without origin |
| Execution.OneVisit | kubeka/src/kbbi.c:79-103 | a visit reports the number of ROLLBACK commands and then exactly these commands, in order |
| Execution.Runnable | kubeka/src/kbnode.c:856-871 | the handlers with one of the emitted signals among their HANDLES, each once and in order |
| Runs.ReturnsZeroIffClean | kubeka/src/kbbi.c:107-212 | 0 is returned exactly when every executed command returned 0, for non-negative exit codes or unambiguous trees |
| Runs.RunRefinesFlattening | kubeka/src/kbbi.c:141-199 | without failures the executed commands are the tree's from left to right; otherwise a subsequence, and a prefix when the tree is unambiguous |
| Runs.CleanMeansZero | kubeka/src/kbbi.c:107-212 | for any exit codes, a run in which no command failed returns 0 |
| Runs.Unproductive | kubeka/src/kbbi.c:141-202 | a node without commands returns 0 and runs nothing, not even a rollback |
| ExitCodes.TruthfulIffUnambiguous | kubeka/src/kbbi.c:141-149 | for all exit codes, negative ones included, 0 means that all commands succeeded exactly for the trees in which no reachable node starts two handlers that both have commands |
| ExitCodes.NodeLocal | kubeka/src/kbbi.c:107-212 | a run depends only on the exit codes of the commands it runs itself |
| ExitCodes.NodeFails | kubeka/src/kbbi.c:107-212 | if only the first command of a tree fails, its code is the return code |
| Compensation.RollbackDiscipline | kubeka/src/kbbi.c:171-194 | in every run and at every node of the tree, either no job fails, or a job i fails, then jobs i, i - 1, ..., 0 are rolled back in that order, each by all its ROLLBACK commands in order, after everything that happened in them, and later jobs never start; no node is rolled back twice and the root never is |
| Failures.JobFailsIffCommandFailed | kubeka/src/kbbi.c:171-180 | for located trees whose codes cannot cancel: job i of a node fails exactly when a command in its own run failed |
| Compensation.RollBackIsBlock | kubeka/src/kbbi.c:180-192 | a rollback is a sequence of complete visits, each with the ROLLBACK commands of its job |
| Compensation.WarningsAreConserved | kubeka/src/kbbi.c:79-84 | a run of located nodes adds no error, and as many warnings as jobs failed plus rollback visits found nothing to do |
| Linting.Coalesce | kubeka/src/kbtree.c:41-127 | the first node of each ID is kept, and the others are counted |
| Linting.CoalesceKeepsFirst | kubeka/src/kbtree.c:63-104 | no two kept nodes share an ID, every ID stays represented, and nothing is dropped exactly when no two nodes have the same first ID string |
| Linting.CoalesceKeepsLookups | kubeka/src/kbtree.c:63-104 | looking a node up by any ID, the empty one included, gives the same node as before |
| Linting.CheckPeriodic | kubeka/src/kbnode.c:914-973 | no error exactly for one valid period and at most one counter, a number |
| Linting.Check | kubeka/src/kbnode.c:987-1051 | no error exactly for nodes that have ID and MESSAGE, exactly one of EXEC, EMITS and JOBS, and, when periodic, valid timing; a warning exactly when file, line or ID has no value |
| Linting.CheckNodes | kubeka/src/kubeka.c:453-481 | no error exactly when IDs are unique and every node is acceptable; no warning either exactly when every node is also located |
| Linting.CleanIdsAreUnique | kubeka/src/kbnode.c:482-497 | clean nodes have pairwise different IDs |
| Soundness.LintIsSound | kubeka/src/kbnode.c:1041-1050 | after a lint without errors, whatever the warnings, no run counts an error; in every run each node that acts executes commands, or starts handlers, or starts jobs, never two of these and never none, exactly when every node reached without failures has something to do; for literal signals every node can do exactly one thing exactly when no action list is empty and, at each reachable emitter, looking up each handler's ID gives a node that handles one of its signals |
| Soundness.CleanLintIsSound | kubeka/src/kbnode.c:1005-1050 | without missing-ID warnings, and for literal signals: every node that acts in any run does exactly one thing, exactly when no action list is empty |
| Soundness.UniqueIdsAnswer | kubeka/src/kbnode.c:118-129 | with unique IDs, looking up a handler's ID gives the handler |
| Soundness.DisciplinedIff | kubeka/src/kbbi.c:129-202 | an evaluated unfolding of acceptable nodes has exactly one possible action at each node, and keeps all handlers, exactly when no action list is empty and all handlers' IDs lead to handlers |
| Soundness.HandlersAreKept | kubeka/src/kbbi.c:130-145 | when signals hold no references, the run-time filter keeps every handler child of an expanded and evaluated node exactly when each handler's ID leads to a node that handles one of the signals |
| Soundness.OneAction | kubeka/src/kbnode.c:1041-1050 | the exactly-one rule on keys carries over to what the evaluated node can do |
| Activity.NodeDoesOneThing | kubeka/src/kbbi.c:129-202 | the trace of an active tree shows exactly one kind of action for each node that acts, for all exit codes |
| Activity.OneThingIffActive | kubeka/src/kbbi.c:129-202 | that holds for all exit codes exactly when every node that a run without failures reaches can do something |
| MissingIds.WarningsMatter | kubeka/src/kbnode.c:1005-1008 | concrete nodes that lint without errors, but with the warning about a missing ID, in which no list is empty and still some run falls through: an ID leads to the wrong node |
| Periodic.Thread.Periodic | kubeka/src/kbbi.c:286-369 | in every state of the loop, runs and remaining counter add up to the initial counter, COUNTER shows the remainder, and no run follows more than ten errors; the loop stops only at the end flag, at counter 0 or after more than ten errors, and leaves the last code |
| Periodic.CheckedThreadsStart | kubeka/src/kbbi.c:292-320 | a located node passes the timing check, with a period that is not empty, exactly when its thread starts and it has one period and at most one counter (an empty one only if it parses); the loop then starts with the counter that was checked |
| Periodic.StartsIff | kubeka/src/kbbi.c:292-320 | a thread starts exactly for a located node with a PERIOD that parses and a COUNTER that is missing, empty or a number; it counts from that number, or from SIZE_MAX |
| Periodic.CounterCountsDown | kubeka/src/kbbi.c:338-352 | a thread that starts at n below SIZE_MAX makes at most n runs, and run i sees a COUNTER that reads n - i - 1 and every other symbol unchanged |
| Periodic.Thread.RunOnce | kubeka/src/kbbi.c:338-352 | the counter goes down and COUNTER is rewritten before the run |
| Periodic.HistoryGrows | kubeka/src/kbbi.c:340-361 | each run continues the history: the right COUNTER, the right start, the right error count |
| Periodic.GivesUpAfterEleven | kubeka/src/kbbi.c:352-361 | no run starts after more than ten errors, so none after eleven failures in a row; for located trees the thread gives up exactly after eleven in a row |
| Periodic.StrikesAreFailures | kubeka/src/kbbi.c:352-361 | the error counter is at least the failures in a row, and equal to them when runs count no errors themselves |
| Periodic.DecimalReadsBack | kubeka/src/kbbi.c:342-344 | the counter as it is written reads back as the same number |
| Framing.FrameRoundTrip | kubeka/src/kbexec.c:83-85 | a frame gives back any output, NULs included, and any exit code |
| Framing.IntRoundTrip | kubeka/src/kbexec.c:231-232 | the bytes of an int give back the int |
| Framing.WriteFrame | kubeka/src/kbexec.c:73-85 | copying in pieces of 32 bytes writes the frame |
| Framing.ReadFrame | kubeka/src/kbexec.c:207-233 | however the frame is cut into reads, the parent recovers code and output with a NUL at the reported length, every index is in bounds, and k reallocations for N bytes satisfy 2^k <= N + 3 |
| Framing.Collect | kubeka/src/kbexec.c:220-228 | one read is appended within the buffer |
| Framing.Buffer.Resize | kubeka/src/kbexec.c:20-36 | the contents are kept and the requested index fits, with room to spare |
| Framing.FewReallocations | kubeka/src/kbexec.c:20-36 | the doubling bounds the number of reallocations |

## Where the model departs from the code

- `node_find_dependent_jobs` sizes its array by jobs and signals but fills it with jobs and handlers (kubeka/src/kbnode.c:186-187 and 234-244). The model's list has room for all.
- `node_del` takes a failed handler out of its parent's jobs instead of its handlers (kubeka/src/kbnode.c:269-271). The model takes it out of the handlers.
- `kbnode_set_single` lets an index equal to the number of values through (kubeka/src/kbnode.c:616), and `kbsymtab_append` an index above 0 for a symbol without values (kubeka/src/kbsym.c:464). Both are preconditions here.

## Where the code departs from its documentation

The model follows the code.

- SPECIFICATION.md:43 asks the lint to refuse circular symbols; `kbtree_eval` rewrites them forever, as `Cycles.CircularNeverEnds` shows at an input. Theorems about evaluation assume that the rewriting ends, which `Evaluation.AcyclicIsEvaluable` derives from the absence of cycles.
- SPECIFICATION.md says that `$<var>` is the first element of an array and that `var[i]` names an element. The code substitutes the whole array, finds no symbol of the name `var[i]`, and replaces the whole array on an assignment to `var[i]`.
- A node whose ID is an empty list passes the lint with a warning only; `WarningsMatter` shows a consequence, and `LintIsSound` the exact condition.
- A value with a `$` directly before a reference can gain references by substitution, so its result is not the expansion of its parts; `Agreement.DollarJoins` shows one.
- `th_periodic` leaves a thread that cannot start unmarked as completed, so the daemon waits for it at shutdown; `Thread.Periodic` states when that is.

## Left out

- Substitution.RewritingIsExpansion: values with builtin calls (names with a blank) are not covered, because `setenv` and `getenv` change and read the environment, which makes the result depend on the order of keys.
- Substitution.RewritingIsExpansion: a value with a `$` directly before a reference is covered only where the loop itself is the specification (`TextHasNoRef`, `NoErrorsIffResolved`, `EvalNode`), because for it loop and expansion differ (`AgreesIffWellFormed`).
- Cycles.LoopEndsIffAcyclic: scopes with dangling references are covered by `Cycles.LoopEndsIffNoWayBack` instead, because a failing reference ends the loop before a later cyclic one is reached.
- Nodes.NodeInstantiate: every source node has at least one symbol, as `node_new` sets two; the failure of copying an empty table is not modelled.
- Evaluator.EvalNode: asks that the loops end and meet no builtin call; `Evaluation.EvaluableEnds` and `Evaluation.AcyclicIsEvaluable` say when that holds.
- Evaluator.EvalPass: builtin calls are not modelled.
- Evaluator.EvalValue: asks that the loop ends without a builtin call, as `Evaluator.EvalNode` does.
- Pipeline.Prepare: the same for the trees of all entry points.
- Nodes.GiveUp: a failed handler is taken out of the handlers, where the code looks for it in the jobs; the release of memory is not modelled, and a node that is given up stays allocated and unreachable.
- SymbolTable.SymTab.Append: an index above 0 for a symbol without values is excluded; the code then writes past an empty array, which C leaves undefined.
- SymbolTable.SymTab.ApplyOps: the same for each append of the sequence.
- SymbolTable.SymTab.SetSingle: an index equal to the number of values is excluded; the code then overwrites the end mark of the array.
- Execution.RunTree: return codes are unbounded integers; the overflow of an added `int` is not modelled.
- Execution.RunHandlerLoop: the same, for the codes that it adds.
- Execution.RunTree: runs on tree values, because the interpreter changes no node; aliasing with the objects of `Nodes.dfy` is not expressed.
- Soundness.LintIsSound: what it says about the tree before a run asks for signals without references, because the run-time filter compares them after substitution; what it says about runs does not.
- Linting.Coalesce: nodes of one ID always know their file and line, as `node_new` sets both; the error exit for nodes that do not is left out. The set is taken to keep insertion order.
- Periodic.Thread.Periodic: the clock and the end flag are a finite list of ticks; the parsers of PERIOD and COUNTER are parameters.
- Framing.ReadFrame: takes a complete frame; a child that ends before it has written one, and partial writes, are left out.
- SymbolTable.SymTab.Copy: allocation failure is left out here and everywhere.
- Process and operating system work: fork, popen, users, directories, signals, threads, sleep.
- Option parsing, directory walking, help text, dumps, build information, the period suffix table.
- Line reading in `kbnode_read_file`: the model starts from the assignments and appends.
- `kbutil_strsplit`, used by the builtin `setenv` only, and `kbbi_launch`, a lookup by ID before the run.
- The `ds_*` libraries, whose source is not part of the repository: growable arrays, a finite map, a set that keeps the first of equal elements, trimming of surrounding white space, replace-all substitution.
