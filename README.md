# gotestlooplint in Dafny

gotestlooplint is a Go static-analysis rule. For every `for` and `range` loop,
it looks for a test closure that may run after the loop has moved on:

- a subtest `t.Run(name, func(t *testing.T) { … })` whose closure calls `t.Parallel()`;
- a Ginkgo `It(desc, func() { … })`.

Inside that closure, it reports every identifier that refers to one of the
loop's variables. Before Go 1.22 such a closure sees the variable's last value,
not the value of its own iteration.

This project models the rule (`findIgnoredTests` and its helpers) over an
abstract syntax tree and proves what it reports.

- `go_runtime.dfy` (`GoRuntime`): Go's nil (`Option`), the panics the rule can
  raise (`Fault`), and `Result`. A `Result` that fails stands for a panic
  unwinding the stack.
- `go_ast.dfy` (`GoAst`): the node kinds the rule distinguishes and their
  positions. It also holds the children in `ast.Walk` order, the preorder in
  which `ast.Inspect` and the inspector visit nodes, and the type checker as
  an oracle. The oracle says which declaration (`Symbol`) an identifier
  resolves to, that declaration's type string, and its package path.
- `looputils.dfy` (`LoopUtils`): reading a loop's body and the identifiers it binds.
- `gotestlooplint.dfy` (`GoTestLoopLint`) has two layers.
  - Pure functions specify each check: the call searches, the report walks,
    the per-loop diagnostics and the whole analysis.
  - A `Pass` class holds the type information and the reported diagnostics.
    The methods do what the Go code does. They run worklist walks for
    `ast.Inspect`, overwrite the remembered match, append through `Reportf`,
    and recover per loop. Each method is proved equal to its specification
    function.
- `lint_properties.dfy` (`LintProperties`): what those functions guarantee.

Diagnostics are `Diagnostic(pos, message)`. The message is either
`LoopVarCaptured(kind, name)`, rendered by `FailureMessage` with the name in both
slots, or `Panic(fault)` for the `panic: …` report.

### Behaviour of the code a reader might not expect

- The call searches keep the last match that is not nested in another match,
  not the first. `matchingCallExpression` is overwritten and the walk goes on
  to siblings (`LaterMatchOverwrites`).
- A `Parallel` call on any `*testing.T` identifier marks the closure parallel.
  The receiver need not be the closure's own parameter (`AnyTestingTMarksParallel`).
- Reading the loop variables never yields a partial or empty list for a bad
  loop. A left-hand side that is not a bare identifier, such as `s.i` in
  `for s.i = 0; …`, panics (`NonIdentifierInitPanics`).
- A `Run` or `It` call with fewer than two arguments panics on `Args[1]`.
  - For `Run`, the subtest check panics. The loop gets only the panic
    diagnostic, and its Ginkgo check is skipped (`OneArgumentRunPanics`).
  - For `It`, the Ginkgo check panics. The subtest check's reports for that
    loop stay, and the panic diagnostic follows them (`PanicBoundary`).
- Objects are compared as `slices.Any` compares them, with `==`. A nil object
  therefore matches a nil loop-variable object.

## Model

| member | source | states |
|---|---|---|
| LoopUtils.GetLoopBody | looputils.go:9-18 | succeeds exactly on `for`/`range` nodes and then returns the loop's body; any other node panics with the unexpected-node-type fault |
| LoopUtils.ExprToIdent | looputils.go:20 | succeeds exactly when the expression is an identifier and returns it unchanged |
| LoopUtils.IsNonNilExpr | looputils.go:21 | a clause counts exactly when it is present |
| LoopUtils.NonNilExprs | looputils.go:33 | keeps exactly the present clauses, never more than were given |
| LoopUtils.NonNilExprsConcat | looputils.go:33 | filtering distributes over concatenation, so kept clauses keep their order and repeats |
| LoopUtils.NonNilExprsSingle | looputils.go:21-33 | one clause is kept exactly when it is present |
| LoopUtils.MapExprToIdent | looputils.go:28 | succeeds exactly when every expression is an identifier and then returns the list unchanged in order; otherwise panics with the type-assertion fault |
| LoopUtils.GetLoopVarsIdentifiers | looputils.go:23-37 | a counting loop with an assignment initialiser binds its left-hand sides in order; a counting loop with any other initialiser, or none, binds nothing; a range loop binds key then value, skipping absent ones (at most two); a bound expression that is not an identifier panics; a node that is not a loop panics |
| GoTestLoopLint.GetLoopNodeIdentifiersObjects | gotestlooplint.go:67-69 | fails exactly when reading the loop variables fails, with the same fault; otherwise one object per identifier, same length and order |
| GoTestLoopLint.GetSubtestClosure | gotestlooplint.go:124-130 | fewer than two arguments is an index-out-of-range panic at index 1; otherwise returns the second argument exactly when it is a function literal, nil otherwise |
| GoTestLoopLint.FailureMessage | gotestlooplint.go:15-18 | the message starts with "loop variable `name`" and ends with "`name` to a variable outside the closure", so the name fills both slots; what lies between is the text that names the check's kind of closure |
| GoTestLoopLint.MessagesTellKindsApart | gotestlooplint.go:15-18 | the parallel-test and Ginkgo messages differ for every name |
| GoTestLoopLint.IsTestingTCall | gotestlooplint.go:159-166 | matches exactly a call `x.<methodName>(…)` on an identifier whose type prints exactly as `*testing.T`; it panics exactly when such a selector call's receiver identifier has no object, whatever the method name |
| GoTestLoopLint.CallIdentifier | gotestlooplint.go:187-197 | a selector callee yields its selected name and a bare identifier yields itself; any other callee yields nothing |
| GoTestLoopLint.IsGinkgoIdentifier | gotestlooplint.go:210-213 | true exactly when the identifier's object is declared in `github.com/onsi/ginkgo` or `github.com/onsi/ginkgo/v2`; a missing object panics, and so does an object without a package |
| GoTestLoopLint.IsGinkgoItCall | gotestlooplint.go:181-204 | matches exactly a call whose callee names `It` and whose `It` is declared in a Ginkgo package; the package is asked for, and can panic, only when the name is `It` |
| GoTestLoopLint.ParallelCallPos | gotestlooplint.go:57-65 | fails exactly when the `Parallel` search panics; otherwise returns a position exactly when the search finds a call, and that position is the call's receiver's |
| GoTestLoopLint.SubtestDiagnostics | gotestlooplint.go:71-103 | a loop whose variables cannot be read panics with that fault; otherwise every report uses the parallel-test message |
| GoTestLoopLint.GinkgoDiagnostics | gotestlooplint.go:105-122 | a loop whose variables cannot be read panics with that fault; otherwise every report uses the Ginkgo message |
| GoTestLoopLint.LoopDiagnostics | gotestlooplint.go:31-41 | a loop's output ends with a panic diagnostic exactly when one of its checks panicked; only the last diagnostic can be a panic; every panic diagnostic is at the loop's position |
| GoTestLoopLint.IsLoopVarUse | gotestlooplint.go:133-139 | holds exactly for an identifier whose object equals some loop variable's object, as `slices.Any` with `==` decides |
| GoTestLoopLint.SkippedBefore | gotestlooplint.go:96-99 | the Ginkgo walk (no Parallel position) skips nothing; the subtest walk skips exactly the nodes whose position is at or before the Parallel call, for an identifier its own position |
| GoTestLoopLint.Reported | gotestlooplint.go:96-101 | a walk flags exactly an identifier whose object equals some loop variable's object and which, in the subtest walk, lies strictly after the Parallel call |
| GoTestLoopLint.CallMatches | gotestlooplint.go:153-172 | every call the walk records matches the searched shape |
| GoTestLoopLint.Resume | gotestlooplint.go:165-174 | a panic in the rest of the walk propagates; otherwise the remembered match survives when the rest records nothing, and is overwritten by the last match recorded otherwise |
| GoTestLoopLint.FindCall | gotestlooplint.go:150-175 | a returned node is a call that matches the searched shape |
| GoTestLoopLint.FindStep | gotestlooplint.go:153-171 | visiting a node either panics, records it and prunes its subtree, or continues into its children |
| GoTestLoopLint.ReportStep | gotestlooplint.go:132-147 | visiting a node either reports it and prunes it, or continues into its children |
| GoTestLoopLint.LoopVarUses | gotestlooplint.go:91-102 | every diagnostic a report walk emits is a captured-variable message of the walk's own check |
| GoTestLoopLint.FilterLoops | gotestlooplint.go:28-31 | keeps exactly the `for` and `range` nodes |
| GoTestLoopLint.FilterLoopsConcat | gotestlooplint.go:28-31 | filtering distributes over concatenation, so loops keep their preorder |
| GoTestLoopLint.FilterLoopsSingle | gotestlooplint.go:28-31 | one node is kept exactly when it is a loop |
| GoTestLoopLint.LoopNodes | gotestlooplint.go:28-31 | the loops checked are exactly the `for` and `range` nodes of the tree, at any depth and inside any function |
| GoTestLoopLint.LoopsDiagnostics | gotestlooplint.go:28-41 | every panic diagnostic for a list of loops is at the position of one of those loops |
| GoTestLoopLint.Analysis | gotestlooplint.go:27-44 | every panic diagnostic of the run is at the position of a loop of the tree |
| GoTestLoopLint.Pass.constructor | gotestlooplint.go:27 | a pass starts with its type information and no diagnostics |
| GoTestLoopLint.Pass.Reportf | gotestlooplint.go:141 | reporting appends exactly one diagnostic and changes nothing else |
| GoTestLoopLint.FindTestingTCalls | gotestlooplint.go:150-175 | the worklist walk that overwrites its remembered match returns what the search specification returns, including its panics |
| GoTestLoopLint.FindGinkgoItCalls | gotestlooplint.go:178-208 | the same for the Ginkgo `It` search |
| GoTestLoopLint.IsParallelFunctionClosure | gotestlooplint.go:57-65 | returns the position of the `Parallel` call the search finds in the closure's body, or nil |
| GoTestLoopLint.CheckAndReportLoopIdentifierObject | gotestlooplint.go:132-147 | the walk continues below the node exactly when it is not an identifier whose object is one of the loop variables' objects; otherwise it reports that identifier's position and name |
| GoTestLoopLint.ReportLoopVarUses | gotestlooplint.go:91-102 | the worklist report walk appends exactly the diagnostics the report specification gives for the closure |
| GoTestLoopLint.CheckAndReportLoop | gotestlooplint.go:71-103 | appends exactly the subtest check's diagnostics, or, when it panics, returns the fault with nothing appended |
| GoTestLoopLint.CheckAndReportLoopGinkgo | gotestlooplint.go:105-122 | appends exactly the Ginkgo check's diagnostics, or, when it panics, returns the fault with nothing appended |
| GoTestLoopLint.CheckLoopRecovering | gotestlooplint.go:31-41 | one loop under the recover boundary appends exactly that loop's diagnostics, including a panic diagnostic |
| GoTestLoopLint.FindIgnoredTests | gotestlooplint.go:27-44 | the whole rule appends exactly the analysis of the tree: every loop, in preorder |
| LintProperties.CallMatchesInPreorder | gotestlooplint.go:153-172 | every recorded match is a node of the searched tree |
| LintProperties.NoMatchAnywhere | gotestlooplint.go:153-172 | the walk records nothing and does not panic exactly when no node of the tree matches or panics |
| LintProperties.NotFoundIffNoMatchingCall | gotestlooplint.go:150-175 | a search returns nil without panicking exactly when no node of the tree matches and none panics |
| LintProperties.FoundTestingTCall | gotestlooplint.go:159-166 | the call found is in the tree and has the form `x.<methodName>(…)`, where `x` is an identifier whose type prints exactly as `*testing.T` |
| LintProperties.FoundGinkgoItCall | gotestlooplint.go:187-212 | the call found is in the tree and calls `It` or `pkg.It`, where `It` is declared in `github.com/onsi/ginkgo` or `github.com/onsi/ginkgo/v2` |
| LintProperties.LaterMatchOverwrites | gotestlooplint.go:165-166 | in a block, a match in a later statement replaces whatever earlier statements matched |
| LintProperties.MatchNotSearchedInside | gotestlooplint.go:165-166 | a matching call is returned itself and never a call nested inside it |
| LintProperties.AnyTestingTMarksParallel | gotestlooplint.go:57-65 | a closure whose body is one `Parallel` call on any `*testing.T` identifier is parallel, at that receiver's position |
| LintProperties.ParallelCallAnywhereMarksClosure | gotestlooplint.go:57-65 | a closure whose body holds, anywhere, a `Parallel` call on any `*testing.T` identifier is parallel, unless the search panics |
| LintProperties.UsesInConcat | gotestlooplint.go:132-147 | the reference list of flagged nodes distributes over concatenation |
| LintProperties.UsesInMembership | gotestlooplint.go:132-147 | the reference list holds a diagnostic exactly when some flagged node of the list produces it |
| LintProperties.LoopVarUsesInPreorder | gotestlooplint.go:91-121 | a report walk emits exactly one diagnostic per flagged node of the closure, in preorder: pruning hides nothing, and skipped nodes are still descended into |
| LintProperties.ReportedIffLoopVarUse | gotestlooplint.go:132-147 | a diagnostic is reported exactly when an identifier of the closure that the position filter lets through resolves to a loop variable's object; it carries that identifier's own position and name |
| LintProperties.NothingReportedUpToParallel | gotestlooplint.go:96-99 | in the subtest check every report lies strictly after the `Parallel` call |
| LintProperties.EveryLaterUseReported | gotestlooplint.go:96-101 | every use the filter lets through is reported, at any depth, including below a skipped node |
| LintProperties.ShadowingNotReported | gotestlooplint.go:135-139 | an identifier whose object is not a loop variable's object is never reported, even when it has a loop variable's name |
| LintProperties.SubtestReportsNeedParallelClosure | gotestlooplint.go:71-103 | the subtest check reports only if the body has a `*testing.T` `Run` call whose second argument is a function literal calling `Parallel`; all its reports then come after that call and use the parallel-test message |
| LintProperties.GinkgoReportsEveryUse | gotestlooplint.go:105-122 | the Ginkgo check reports every use of a loop variable anywhere in the `It` closure, whatever its position |
| LintProperties.SubtestReportsEveryLaterUse | gotestlooplint.go:71-103 | once a `*testing.T` `Run` closure calls `Parallel`, every use of a loop variable in that closure after the call is reported at its own position with its name |
| LintProperties.GinkgoReportsOnlyUses | gotestlooplint.go:105-122 | the Ginkgo check reports only when the body has a Ginkgo `It` call with a function-literal second argument, and each report is a use of a loop variable in that closure |
| LintProperties.PanicCountConcat | gotestlooplint.go:33-40 | panic diagnostics add up over concatenation |
| LintProperties.NoPanicMessages | gotestlooplint.go:33-40 | a list of captured-variable reports holds no panic diagnostic |
| LintProperties.PanicBoundary | gotestlooplint.go:33-40 | a panic in the subtest check gives exactly one panic diagnostic at the loop's position and skips the Ginkgo check; a panic in the Ginkgo check comes after the subtest reports; otherwise the subtest reports come before the Ginkgo reports; a loop holds at most one panic diagnostic, exactly when a check panicked |
| LintProperties.OneArgumentRunPanics | gotestlooplint.go:124-125 | a `Run` call with fewer than two arguments leaves the loop with only the index-out-of-range panic diagnostic |
| LintProperties.NonIdentifierInitPanics | looputils.go:20-28 | a counting loop whose initialiser assigns to anything but a bare identifier leaves the loop with only the type-assertion panic diagnostic |
| LintProperties.LoopsDiagnosticsConcat | gotestlooplint.go:28-41 | what a run of loops reports is what each part reports, in order: a panic in one loop does not stop later loops |
| LintProperties.EveryLoopCheckedInPreorder | gotestlooplint.go:28-41 | every loop of the tree is checked, and contributes its own diagnostics between those of the loops before and after it in preorder |
| LintProperties.LoopsOfEarlierStatementsFirst | gotestlooplint.go:28-31 | in a block, the loops of earlier statements are checked before the loops of later ones |
| LintProperties.OuterLoopFirst | gotestlooplint.go:28-31 | a loop is checked before the loops nested inside it |

## Left out

- cmd/gotestlooplint/main.go only passes the analyzer to `singlechecker.Main`. This is process and command-line plumbing.
- The `Analyzer` value and the `inspect.Analyzer` dependency (gotestlooplint.go:20-25) are framework registration. The tree the inspector walks is one root `Node` that stands for the package's files.
- go/types is an oracle (`TypesInfo`). Identifiers resolve by spelling and position to opaque declarations, each with a type string and a package path. Go's typing rules are not modelled.
- `checkFunction` (gotestlooplint.go:46-55) is never called and has no effect.
- `Printf` rendering of panic values and the Go runtime's panic texts are left out. A panic diagnostic carries the fault's kind instead.
- `go/token` positions are given integers on nodes. A call's and a selector's positions are derived from their first operand, as in go/ast.
- The condition and post statement of a counting loop are walked like any other child. Node kinds the rule does not inspect are folded into `Other`, with their children in `ast.Walk` order.
- `ast.Inspect` also calls its callback with nil after each subtree. The checks either return early on nil or find that nil matches nothing, so those calls are left out.
- `slices.Map`, `slices.Filter` and `slices.Any` are pure functions over sequences.
