/** What the rule guarantees, proved about the functions that specify it:
    which calls the searches find, which identifiers the report walks flag,
    and how the per-loop recover boundary shapes the output. */
module LintProperties {
  import opened GoRuntime
  import opened GoAst
  import opened LoopUtils
  import opened GoTestLoopLint

  // ---------------------------------------------------------------------
  // Call search
  // ---------------------------------------------------------------------

  /** Every recorded match is a node of the searched tree. */
  lemma {:induction false} CallMatchesInPreorder(info: TypesInfo, shape: CallShape, n: Node)
    ensures CallMatches(info, shape, n).Ok? ==>
              forall m | m in CallMatches(info, shape, n).value :: m in Preorder(n)
    decreases Size(n), 0
  {
    if MatchesShape(info, shape, n) == Ok(false) {
      ChildrenSize(n);
      CallMatchesSeqInPreorder(info, shape, Children(n));
    }
  }

  lemma {:induction false} CallMatchesSeqInPreorder(info: TypesInfo, shape: CallShape, ns: seq<Node>)
    ensures CallMatchesSeq(info, shape, ns).Ok? ==>
              forall m | m in CallMatchesSeq(info, shape, ns).value :: m in PreorderSeq(ns)
    decreases SizeSeq(ns), 1
  {
    if ns != [] {
      CallMatchesInPreorder(info, shape, ns[0]);
      CallMatchesSeqInPreorder(info, shape, ns[1..]);
    }
  }

  /** A search records nothing and does not panic exactly when no node of the
      tree matches and none makes the callback panic. */
  lemma {:induction false} NoMatchAnywhere(info: TypesInfo, shape: CallShape, n: Node)
    ensures CallMatches(info, shape, n) == Ok([]) <==>
              forall m | m in Preorder(n) :: MatchesShape(info, shape, m) == Ok(false)
    decreases Size(n), 0
  {
    ChildrenSize(n);
    NoMatchAnywhereSeq(info, shape, Children(n));
    assert Preorder(n) == [n] + PreorderSeq(Children(n));
  }

  lemma {:induction false} NoMatchAnywhereSeq(info: TypesInfo, shape: CallShape, ns: seq<Node>)
    ensures CallMatchesSeq(info, shape, ns) == Ok([]) <==>
              forall m | m in PreorderSeq(ns) :: MatchesShape(info, shape, m) == Ok(false)
    decreases SizeSeq(ns), 1
  {
    if ns != [] {
      NoMatchAnywhere(info, shape, ns[0]);
      NoMatchAnywhereSeq(info, shape, ns[1..]);
      assert PreorderSeq(ns) == Preorder(ns[0]) + PreorderSeq(ns[1..]);
    }
  }

  /** findTestingTCalls and findGinkgoItCalls return nil without panicking
      exactly when the tree holds no matching call. */
  lemma NotFoundIffNoMatchingCall(info: TypesInfo, shape: CallShape, root: Node)
    ensures FindCall(info, shape, root) == Ok(None) <==>
              forall m | m in Preorder(root) :: MatchesShape(info, shape, m) == Ok(false)
  {
    NoMatchAnywhere(info, shape, root);
  }

  /** The call findTestingTCalls returns is in the tree, has the form
      `x.<methodName>(…)`, and x is an identifier whose type prints as
      `*testing.T`. Nothing ties x to the closure's own parameter. */
  lemma FoundTestingTCall(info: TypesInfo, root: Node, methodName: string)
    requires FindCall(info, TestingTMethod(methodName), root).Ok?
    requires FindCall(info, TestingTMethod(methodName), root).value.Some?
    ensures var c := FindCall(info, TestingTMethod(methodName), root).value.value;
            c in Preorder(root) && c.Call? && c.fun.Selector? && c.fun.x.Ident? && c.fun.sel == methodName &&
            info.ObjectOf(c.fun.x).Some? && info.typeString(info.ObjectOf(c.fun.x).value) == TestingTType
  {
    var ms := CallMatches(info, TestingTMethod(methodName), root).value;
    assert ms[|ms| - 1] in ms;
    CallMatchesInPreorder(info, TestingTMethod(methodName), root);
  }

  /** The call findGinkgoItCalls returns is in the tree and calls `It`, bare
      or as `pkg.It`, declared in github.com/onsi/ginkgo or its /v2. */
  lemma FoundGinkgoItCall(info: TypesInfo, root: Node)
    requires FindCall(info, GinkgoIt, root).Ok? && FindCall(info, GinkgoIt, root).value.Some?
    ensures var c := FindCall(info, GinkgoIt, root).value.value;
            c in Preorder(root) && c.Call? &&
            ((c.fun.Ident? && c.fun.name == "It" && DeclaredInGinkgo(info, c.fun.name, c.fun.pos)) ||
             (c.fun.Selector? && c.fun.sel == "It" && DeclaredInGinkgo(info, c.fun.sel, c.fun.selPos)))
  {
    var ms := CallMatches(info, GinkgoIt, root).value;
    assert ms[|ms| - 1] in ms;
    CallMatchesInPreorder(info, GinkgoIt, root);
  }

  /** The search does not stop at its first match: in a block, a match in a
      later statement overwrites whatever earlier statements matched. */
  lemma LaterMatchOverwrites(info: TypesInfo, shape: CallShape, earlier: seq<Node>, later: seq<Node>, pos: Pos)
    requires CallMatchesSeq(info, shape, earlier).Ok?
    requires CallMatchesSeq(info, shape, later).Ok? && CallMatchesSeq(info, shape, later).value != []
    ensures FindCall(info, shape, Block(earlier + later, pos)) == Ok(Last(CallMatchesSeq(info, shape, later).value))
  {
    var block := Block(earlier + later, pos);
    assert MatchesShape(info, shape, block) == Ok(false);
    assert CallMatches(info, shape, block) == CallMatchesSeq(info, shape, earlier + later);
    CallMatchesSeqConcat(info, shape, earlier, later);
    LastOfConcat(CallMatchesSeq(info, shape, earlier).value, CallMatchesSeq(info, shape, later).value);
  }

  /** A matching call is not searched inside: calls among its own arguments
      are never found instead of it. */
  lemma MatchNotSearchedInside(info: TypesInfo, shape: CallShape, c: Node)
    requires MatchesShape(info, shape, c) == Ok(true)
    ensures FindCall(info, shape, c) == Ok(Some(c))
  {
  }

  /** A Parallel call counts whatever *testing.T it is called on: the loop's
      own `t` inside the subtest closure marks the closure parallel just as
      the closure's parameter would. */
  lemma AnyTestingTMarksParallel(info: TypesInfo, receiver: Node, selPos: Pos, params: seq<Node>, funcPos: Pos, blockPos: Pos)
    requires receiver.Ident? && info.ObjectOf(receiver).Some?
    requires info.typeString(info.ObjectOf(receiver).value) == TestingTType
    ensures ParallelCallPos(info, FuncLit(params, Block([Call(Selector(receiver, "Parallel", selPos), [])], blockPos), funcPos))
            == Ok(Some(receiver.pos))
  {
    var call := Call(Selector(receiver, "Parallel", selPos), []);
    var body := Block([call], blockPos);
    assert CallMatches(info, TestingTMethod("Parallel"), call) == Ok([call]);
    assert [call][1..] == [];
    assert CallMatchesSeq(info, TestingTMethod("Parallel"), []) == Ok([]);
    assert [call] + [] == [call];
    assert CallMatchesSeq(info, TestingTMethod("Parallel"), [call]) == Ok([call]);
    assert CallMatches(info, TestingTMethod("Parallel"), body) == Ok([call]);
    assert call.Position() == call.fun.Position() == receiver.Position() == receiver.pos;
  }

  /** In general: a closure whose body holds, anywhere, a call `x.Parallel()`
      on any identifier x of type *testing.T is parallel, unless the search
      panics. */
  lemma ParallelCallAnywhereMarksClosure(info: TypesInfo, closure: Node, c: Node)
    requires closure.FuncLit? && c in Preorder(closure.body)
    requires c.Call? && c.fun.Selector? && c.fun.sel == "Parallel" && c.fun.x.Ident?
    requires info.ObjectOf(c.fun.x).Some? && info.typeString(info.ObjectOf(c.fun.x).value) == TestingTType
    requires FindCall(info, TestingTMethod("Parallel"), closure.body).Ok?
    ensures ParallelCallPos(info, closure).Ok? && ParallelCallPos(info, closure).value.Some?
  {
    assert MatchesShape(info, TestingTMethod("Parallel"), c) == Ok(true);
    NotFoundIffNoMatchingCall(info, TestingTMethod("Parallel"), closure.body);
  }

  // ---------------------------------------------------------------------
  // Loop variable uses
  // ---------------------------------------------------------------------

  /** Reference definition: one diagnostic for every flagged node of a list,
      in list order. */
  function UsesIn(info: TypesInfo, loopVarObjects: seq<Option<Symbol>>, notAfter: Option<Pos>,
                  kind: CheckKind, ns: seq<Node>): seq<Diagnostic>
  {
    if ns == [] then []
    else (if Reported(info, loopVarObjects, notAfter, ns[0]) then [UseDiagnostic(kind, ns[0])] else [])
         + UsesIn(info, loopVarObjects, notAfter, kind, ns[1..])
  }

  lemma {:induction false} UsesInConcat(info: TypesInfo, loopVarObjects: seq<Option<Symbol>>, notAfter: Option<Pos>,
                                        kind: CheckKind, a: seq<Node>, b: seq<Node>)
    ensures UsesIn(info, loopVarObjects, notAfter, kind, a + b)
         == UsesIn(info, loopVarObjects, notAfter, kind, a) + UsesIn(info, loopVarObjects, notAfter, kind, b)
  {
    if a == [] {
      assert a + b == b;
    } else {
      assert (a + b)[0] == a[0];
      assert (a + b)[1..] == a[1..] + b;
      UsesInConcat(info, loopVarObjects, notAfter, kind, a[1..], b);
    }
  }

  lemma {:induction false} UsesInMembership(info: TypesInfo, loopVarObjects: seq<Option<Symbol>>, notAfter: Option<Pos>,
                                            kind: CheckKind, ns: seq<Node>, d: Diagnostic)
    ensures d in UsesIn(info, loopVarObjects, notAfter, kind, ns) <==>
              exists m :: m in ns && Reported(info, loopVarObjects, notAfter, m) && d == UseDiagnostic(kind, m)
  {
    if ns != [] {
      UsesInMembership(info, loopVarObjects, notAfter, kind, ns[1..], d);
      assert forall m :: m in ns <==> m == ns[0] || m in ns[1..];
    }
  }

  /** A report walk flags exactly the flagged nodes of the closure's preorder,
      one diagnostic each, in preorder: pruning at a reported identifier hides
      nothing, and a node the position filter skips is still descended into. */
  lemma {:induction false} LoopVarUsesInPreorder(info: TypesInfo, loopVarObjects: seq<Option<Symbol>>, notAfter: Option<Pos>,
                                                 kind: CheckKind, n: Node)
    ensures LoopVarUses(info, loopVarObjects, notAfter, kind, n)
         == UsesIn(info, loopVarObjects, notAfter, kind, Preorder(n))
    decreases Size(n), 0
  {
    ChildrenSize(n);
    LoopVarUsesSeqInPreorder(info, loopVarObjects, notAfter, kind, Children(n));
    UsesInConcat(info, loopVarObjects, notAfter, kind, [n], PreorderSeq(Children(n)));
    assert [n][1..] == [];
  }

  lemma {:induction false} LoopVarUsesSeqInPreorder(info: TypesInfo, loopVarObjects: seq<Option<Symbol>>, notAfter: Option<Pos>,
                                                    kind: CheckKind, ns: seq<Node>)
    ensures LoopVarUsesSeq(info, loopVarObjects, notAfter, kind, ns)
         == UsesIn(info, loopVarObjects, notAfter, kind, PreorderSeq(ns))
    decreases SizeSeq(ns), 1
  {
    if ns != [] {
      LoopVarUsesInPreorder(info, loopVarObjects, notAfter, kind, ns[0]);
      LoopVarUsesSeqInPreorder(info, loopVarObjects, notAfter, kind, ns[1..]);
      UsesInConcat(info, loopVarObjects, notAfter, kind, Preorder(ns[0]), PreorderSeq(ns[1..]));
    }
  }

  /** A diagnostic is reported exactly when some identifier of the closure
      that the position filter lets through resolves to the very object of a
      loop variable; it carries that identifier's own position and name. */
  lemma ReportedIffLoopVarUse(info: TypesInfo, loopVarObjects: seq<Option<Symbol>>, notAfter: Option<Pos>,
                              kind: CheckKind, closure: Node, d: Diagnostic)
    ensures d in LoopVarUses(info, loopVarObjects, notAfter, kind, closure) <==>
              exists m :: m in Preorder(closure) && m.Ident? && !SkippedBefore(notAfter, m) &&
                          info.ObjectOf(m) in loopVarObjects && d == Diagnostic(m.pos, LoopVarCaptured(kind, m.name))
  {
    LoopVarUsesInPreorder(info, loopVarObjects, notAfter, kind, closure);
    UsesInMembership(info, loopVarObjects, notAfter, kind, Preorder(closure), d);
  }

  /** In the subtest walk nothing at or before the Parallel call is reported. */
  lemma NothingReportedUpToParallel(info: TypesInfo, loopVarObjects: seq<Option<Symbol>>, parallelPos: Pos, closure: Node)
    ensures forall d | d in LoopVarUses(info, loopVarObjects, Some(parallelPos), GoTest, closure) :: d.pos > parallelPos
  {
    forall d | d in LoopVarUses(info, loopVarObjects, Some(parallelPos), GoTest, closure)
      ensures d.pos > parallelPos
    {
      ReportedIffLoopVarUse(info, loopVarObjects, Some(parallelPos), GoTest, closure, d);
    }
  }

  /** Every use the filter lets through is reported, however deep it sits,
      inside nested closures or below a node that the filter skipped. */
  lemma EveryLaterUseReported(info: TypesInfo, loopVarObjects: seq<Option<Symbol>>, notAfter: Option<Pos>,
                              kind: CheckKind, closure: Node, m: Node)
    requires m in Preorder(closure) && m.Ident? && !SkippedBefore(notAfter, m)
    requires info.ObjectOf(m) in loopVarObjects
    ensures UseDiagnostic(kind, m) in LoopVarUses(info, loopVarObjects, notAfter, kind, closure)
  {
    ReportedIffLoopVarUse(info, loopVarObjects, notAfter, kind, closure, UseDiagnostic(kind, m));
  }

  /** Identity, not spelling: an identifier whose object is not one of the
      loop variables' objects (a shadowing `v := v`, say) is never reported,
      even when it has a loop variable's name. */
  lemma ShadowingNotReported(info: TypesInfo, loopVarObjects: seq<Option<Symbol>>, notAfter: Option<Pos>,
                             kind: CheckKind, closure: Node, m: Node)
    requires m.Ident? && info.ObjectOf(m) !in loopVarObjects
    ensures UseDiagnostic(kind, m) !in LoopVarUses(info, loopVarObjects, notAfter, kind, closure)
  {
    ReportedIffLoopVarUse(info, loopVarObjects, notAfter, kind, closure, UseDiagnostic(kind, m));
  }

  // ---------------------------------------------------------------------
  // The two checks
  // ---------------------------------------------------------------------

  /** The subtest check reports only when the loop body holds a *testing.T
      `Run` call whose second argument is a function literal whose body holds
      a *testing.T `Parallel` call; then every report lies after that call
      and uses the parallel-test message. */
  lemma SubtestReportsNeedParallelClosure(info: TypesInfo, loopNode: Node, ds: seq<Diagnostic>)
    requires SubtestDiagnostics(info, loopNode) == Ok(ds) && ds != []
    ensures loopNode.IsLoop()
    ensures var run := FindCall(info, TestingTMethod("Run"), loopNode.body);
            run.Ok? && run.value.Some? && |run.value.value.args| >= 2 && run.value.value.args[1].FuncLit? &&
            var parallel := ParallelCallPos(info, run.value.value.args[1]);
            parallel.Ok? && parallel.value.Some? &&
            forall d | d in ds :: d.pos > parallel.value.value && d.message.LoopVarCaptured? && d.message.kind == GoTest
  {
    var objects := GetLoopNodeIdentifiersObjects(info, loopNode).value;
    var run := FindCall(info, TestingTMethod("Run"), loopNode.body).value.value;
    var closure := run.args[1];
    var parallelPos := ParallelCallPos(info, closure).value.value;
    assert ds == LoopVarUses(info, objects, Some(parallelPos), GoTest, closure);
    NothingReportedUpToParallel(info, objects, parallelPos, closure);
  }

  /** The Ginkgo check reports every identifier of the It closure that
      resolves to a loop variable's object, wherever it is, with the Ginkgo
      message. */
  lemma GinkgoReportsEveryUse(info: TypesInfo, loopNode: Node, ds: seq<Diagnostic>, itCall: Node, m: Node)
    requires GinkgoDiagnostics(info, loopNode) == Ok(ds)
    requires loopNode.IsLoop() && FindCall(info, GinkgoIt, loopNode.body) == Ok(Some(itCall))
    requires |itCall.args| >= 2 && itCall.args[1].FuncLit?
    requires m in Preorder(itCall.args[1]) && m.Ident?
    requires info.ObjectOf(m) in GetLoopNodeIdentifiersObjects(info, loopNode).value
    ensures Diagnostic(m.pos, LoopVarCaptured(Ginkgo, m.name)) in ds
  {
    var objects := GetLoopNodeIdentifiersObjects(info, loopNode).value;
    assert ds == LoopVarUses(info, objects, None, Ginkgo, itCall.args[1]);
    EveryLaterUseReported(info, objects, None, Ginkgo, itCall.args[1], m);
  }

  /** The converse for the subtest check: once the loop body holds a
      *testing.T `Run` call whose closure calls Parallel, every identifier of
      that closure after the Parallel call that resolves to a loop
      variable's object is reported, at its own position and with its name. */
  lemma SubtestReportsEveryLaterUse(info: TypesInfo, loopNode: Node, ds: seq<Diagnostic>, runCall: Node, p: Pos, m: Node)
    requires SubtestDiagnostics(info, loopNode) == Ok(ds)
    requires loopNode.IsLoop() && FindCall(info, TestingTMethod("Run"), loopNode.body) == Ok(Some(runCall))
    requires |runCall.args| >= 2 && runCall.args[1].FuncLit?
    requires ParallelCallPos(info, runCall.args[1]) == Ok(Some(p))
    requires m in Preorder(runCall.args[1]) && m.Ident? && m.pos > p
    requires info.ObjectOf(m) in GetLoopNodeIdentifiersObjects(info, loopNode).value
    ensures Diagnostic(m.pos, LoopVarCaptured(GoTest, m.name)) in ds
  {
    var objects := GetLoopNodeIdentifiersObjects(info, loopNode).value;
    assert ds == LoopVarUses(info, objects, Some(p), GoTest, runCall.args[1]);
    EveryLaterUseReported(info, objects, Some(p), GoTest, runCall.args[1], m);
  }

  /** The converse for the Ginkgo check: it reports only when the loop body
      holds a Ginkgo `It` call whose second argument is a function literal,
      and each report is an identifier of that closure resolving to a loop
      variable's object, at its own position and with its name. */
  lemma GinkgoReportsOnlyUses(info: TypesInfo, loopNode: Node, ds: seq<Diagnostic>, d: Diagnostic)
    requires GinkgoDiagnostics(info, loopNode) == Ok(ds) && d in ds
    ensures loopNode.IsLoop()
    ensures var it := FindCall(info, GinkgoIt, loopNode.body);
            it.Ok? && it.value.Some? && |it.value.value.args| >= 2 && it.value.value.args[1].FuncLit? &&
            exists m :: m in Preorder(it.value.value.args[1]) && m.Ident? &&
                        info.ObjectOf(m) in GetLoopNodeIdentifiersObjects(info, loopNode).value &&
                        d == Diagnostic(m.pos, LoopVarCaptured(Ginkgo, m.name))
  {
    var objects := GetLoopNodeIdentifiersObjects(info, loopNode).value;
    var itCall := FindCall(info, GinkgoIt, loopNode.body).value.value;
    assert ds == LoopVarUses(info, objects, None, Ginkgo, itCall.args[1]);
    ReportedIffLoopVarUse(info, objects, None, Ginkgo, itCall.args[1], d);
  }

  // ---------------------------------------------------------------------
  // The recover boundary and the scan over loops
  // ---------------------------------------------------------------------

  function PanicCount(ds: seq<Diagnostic>): nat {
    if ds == [] then 0 else (if ds[0].message.Panic? then 1 else 0) + PanicCount(ds[1..])
  }

  lemma {:induction false} PanicCountConcat(a: seq<Diagnostic>, b: seq<Diagnostic>)
    ensures PanicCount(a + b) == PanicCount(a) + PanicCount(b)
  {
    if a == [] {
      assert a + b == b;
    } else {
      assert (a + b)[0] == a[0];
      assert (a + b)[1..] == a[1..] + b;
      PanicCountConcat(a[1..], b);
    }
  }

  lemma {:induction false} NoPanicMessages(ds: seq<Diagnostic>)
    requires forall d | d in ds :: d.message.LoopVarCaptured?
    ensures PanicCount(ds) == 0
  {
    if ds != [] {
      assert ds[0] in ds;
      NoPanicMessages(ds[1..]);
    }
  }

  /** A panic while checking a loop yields exactly one diagnostic, at the
      loop's position and after whatever the subtest check already reported;
      a panic in the subtest check skips the Ginkgo check. */
  lemma PanicBoundary(info: TypesInfo, loopNode: Node)
    ensures var subtest := SubtestDiagnostics(info, loopNode);
            subtest.Err? ==> LoopDiagnostics(info, loopNode) == [Diagnostic(loopNode.Position(), Panic(subtest.fault))]
    ensures var subtest, ginkgo := SubtestDiagnostics(info, loopNode), GinkgoDiagnostics(info, loopNode);
            subtest.Ok? && ginkgo.Err? ==>
              LoopDiagnostics(info, loopNode) == subtest.value + [Diagnostic(loopNode.Position(), Panic(ginkgo.fault))]
    ensures var subtest, ginkgo := SubtestDiagnostics(info, loopNode), GinkgoDiagnostics(info, loopNode);
            subtest.Ok? && ginkgo.Ok? ==> LoopDiagnostics(info, loopNode) == subtest.value + ginkgo.value
    ensures var subtest, ginkgo := SubtestDiagnostics(info, loopNode), GinkgoDiagnostics(info, loopNode);
            PanicCount(LoopDiagnostics(info, loopNode)) == if subtest.Err? || ginkgo.Err? then 1 else 0
  {
    var subtest, ginkgo := SubtestDiagnostics(info, loopNode), GinkgoDiagnostics(info, loopNode);
    if subtest.Ok? {
      NoPanicMessages(subtest.value);
      if ginkgo.Ok? {
        NoPanicMessages(ginkgo.value);
        PanicCountConcat(subtest.value, ginkgo.value);
      } else {
        PanicCountConcat(subtest.value, [Diagnostic(loopNode.Position(), Panic(ginkgo.fault))]);
      }
    }
  }

  /** A one-argument `Run` call panics on its missing second argument: the
      loop gets the panic diagnostic and nothing else, not even the Ginkgo
      check's reports. */
  lemma OneArgumentRunPanics(info: TypesInfo, loopNode: Node, runCall: Node)
    requires GetLoopVarsIdentifiers(loopNode).Ok?
    requires FindCall(info, TestingTMethod("Run"), loopNode.body) == Ok(Some(runCall))
    requires |runCall.args| < 2
    ensures LoopDiagnostics(info, loopNode) == [Diagnostic(loopNode.Position(), Panic(IndexOutOfRange(1, |runCall.args|)))]
  {
  }

  /** A counting loop whose initialiser assigns to anything but a bare
      identifier (a field `s.i`, say) panics before either check looks for
      a call. */
  lemma NonIdentifierInitPanics(info: TypesInfo, loopNode: Node, i: nat)
    requires loopNode.For? && loopNode.init.Some? && loopNode.init.value.Assign?
    requires i < |loopNode.init.value.lhs| && !loopNode.init.value.lhs[i].Ident?
    ensures LoopDiagnostics(info, loopNode) == [Diagnostic(loopNode.pos, Panic(NotAnIdent))]
  {
  }

  lemma {:induction false} LoopsDiagnosticsConcat(info: TypesInfo, a: seq<Node>, b: seq<Node>)
    ensures LoopsDiagnostics(info, a + b) == LoopsDiagnostics(info, a) + LoopsDiagnostics(info, b)
    decreases |b|
  {
    if b == [] {
      assert a + b == a;
    } else {
      var b' := b[..|b| - 1];
      assert (a + b)[..|a + b| - 1] == a + b';
      assert (a + b)[|a + b| - 1] == b[|b| - 1];
      LoopsDiagnosticsConcat(info, a, b');
      ConcatAssociative(LoopsDiagnostics(info, a), LoopsDiagnostics(info, b'), LoopDiagnostics(info, b[|b| - 1]));
    }
  }

  /** Every `for` and `range` statement of the tree, at any depth and inside
      any function, is checked, and each contributes its own diagnostics in
      preorder, unaffected by panics in the loops before it. */
  lemma EveryLoopCheckedInPreorder(info: TypesInfo, root: Node, i: nat)
    requires i < |LoopNodes(root)|
    ensures var loops := LoopNodes(root);
            loops[i] in Preorder(root) && loops[i].IsLoop() &&
            Analysis(info, root)
            == LoopsDiagnostics(info, loops[..i]) + LoopDiagnostics(info, loops[i]) + LoopsDiagnostics(info, loops[i + 1..])
  {
    var loops := LoopNodes(root);
    assert loops[i] in loops;
    assert loops == loops[..i + 1] + loops[i + 1..];
    LoopsDiagnosticsConcat(info, loops[..i + 1], loops[i + 1..]);
    LoopsDiagnosticsPrefix(info, loops, i);
    assert Analysis(info, root) == LoopsDiagnostics(info, loops);
  }

  /** In a block, the loops of earlier statements are checked before the
      loops of later ones. */
  lemma LoopsOfEarlierStatementsFirst(earlier: seq<Node>, later: seq<Node>, pos: Pos)
    ensures LoopNodes(Block(earlier + later, pos)) == FilterLoops(PreorderSeq(earlier)) + FilterLoops(PreorderSeq(later))
  {
    var block := Block(earlier + later, pos);
    assert Preorder(block) == [block] + PreorderSeq(earlier + later);
    PreorderSeqConcat(earlier, later);
    FilterLoopsConcat([block], PreorderSeq(earlier + later));
    FilterLoopsSingle(block);
    FilterLoopsConcat(PreorderSeq(earlier), PreorderSeq(later));
  }

  /** A loop is checked before the loops nested inside it. */
  lemma OuterLoopFirst(n: Node)
    requires n.IsLoop()
    ensures LoopNodes(n) == [n] + FilterLoops(PreorderSeq(Children(n)))
  {
    FilterLoopsConcat([n], PreorderSeq(Children(n)));
    FilterLoopsSingle(n);
  }
}
