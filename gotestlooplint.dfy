/** The gotestlooplint rule (gotestlooplint.go): for every loop, find a
    `t.Run(name, func…)` subtest whose closure calls `Parallel`, or a Ginkgo
    `It(desc, func…)`, and report every use of a loop variable inside that
    closure. Each check is specified by a pure function over the syntax tree;
    the methods do what the Go code does (walk with ast.Inspect, overwrite
    the remembered match, append through pass.Reportf, recover per loop) and
    are proved equal to those functions. */
module GoTestLoopLint {
  import opened GoRuntime
  import opened GoAst
  import opened LoopUtils

  const TestingTType := "*testing.T"
  const GinkgoV1Path := "github.com/onsi/ginkgo"
  const GinkgoV2Path := "github.com/onsi/ginkgo/v2"

  /** Which of the two checks reported, selecting the message format. */
  datatype CheckKind = GoTest | Ginkgo

  datatype Message =
    | LoopVarCaptured(kind: CheckKind, name: string)
    | Panic(fault: Fault)

  datatype Diagnostic = Diagnostic(pos: Pos, message: Message)

  /** The first and last parts of both message formats, around the name. */
  function MessageHead(name: string): string {
    "loop variable `" + name + "`"
  }

  function MessageTail(name: string): string {
    "`" + name + "` to a variable outside the closure"
  }

  /** The text pass.Reportf produces from goTestFailureMessageFormat or
      ginkgoFailureMessageFormat: the variable's name fills both `%s` slots. */
  function FailureMessage(kind: CheckKind, name: string): (r: string)
    ensures |r| >= |MessageHead(name)| + |MessageTail(name)|
    ensures r[..|MessageHead(name)|] == MessageHead(name)
    ensures r[|r| - |MessageTail(name)|..] == MessageTail(name)
    ensures r[|MessageHead(name)|..|r| - |MessageTail(name)|] == MessageMiddle(kind)
  {
    FramedBy(MessageHead(name), MessageMiddle(kind), MessageTail(name));
    MessageHead(name) + MessageMiddle(kind) + MessageTail(name)
  }

  /** The kind of closure each format names. */
  function ClosureKind(kind: CheckKind): string {
    match kind
    case GoTest => "parallel test"
    case Ginkgo => "ginkgo It"
  }

  /** The text between the two name slots, which names the kind of closure. */
  function MessageMiddle(kind: CheckKind): string {
    " used directly inside " + ClosureKind(kind) + " closure. This could lead to tests not running as expected. Try aliasing "
  }

  lemma FramedBy(head: string, middle: string, tail: string)
    ensures var r := head + middle + tail;
            |r| >= |head| + |tail| && r[..|head|] == head && r[|r| - |tail|..] == tail &&
            r[|head|..|r| - |tail|] == middle
  {
  }

  /** The two formats differ for every name: the parallel-test message and
      the Ginkgo message are told apart by the closure kind they name. */
  lemma MessagesTellKindsApart(name: string)
    ensures FailureMessage(GoTest, name) != FailureMessage(Ginkgo, name)
  {
    assert |ClosureKind(GoTest)| == 13 && |ClosureKind(Ginkgo)| == 9;
    assert |MessageMiddle(GoTest)| != |MessageMiddle(Ginkgo)|;
  }

  /** The diagnostic for one flagged identifier: its own position and name. */
  function UseDiagnostic(kind: CheckKind, id: Node): Diagnostic
    requires id.Ident?
  {
    Diagnostic(id.pos, LoopVarCaptured(kind, id.name))
  }

  // ---------------------------------------------------------------------
  // Call search (findTestingTCalls, findGinkgoItCalls)
  // ---------------------------------------------------------------------

  /** The call the search looks for. */
  datatype CallShape = TestingTMethod(methodName: string) | GinkgoIt

  /** findTestingTCalls' callback at one node: a call `x.<methodName>(…)`
      whose receiver is an identifier of type *testing.T. The receiver's type
      is asked for before the name is compared, so a receiver without an
      object panics whatever the method is called. */
  function IsTestingTCall(info: TypesInfo, n: Node, methodName: string): (r: Result<bool>)
    ensures r.Err? <==> n.Call? && n.fun.Selector? && n.fun.x.Ident? && info.ObjectOf(n.fun.x).None?
    ensures r.Err? ==> r.fault == NilObject
    ensures r == Ok(true) <==>
              n.Call? && n.fun.Selector? && n.fun.x.Ident? && info.ObjectOf(n.fun.x).Some? &&
              info.typeString(info.ObjectOf(n.fun.x).value) == TestingTType && n.fun.sel == methodName
  {
    if n.Call? && n.fun.Selector? && n.fun.x.Ident? then
      match info.ObjectOf(n.fun.x)
      case None => Err(NilObject)
      case Some(obj) => Ok(info.typeString(obj) == TestingTType && n.fun.sel == methodName)
    else
      Ok(false)
  }

  /** The identifier a callee names: the selected name of a selector, or
      the callee itself when it is an identifier. */
  function CallIdentifier(fun: Node): (r: Option<Node>)
    ensures r.Some? <==> fun.Selector? || fun.Ident?
    ensures r.Some? ==> r.value.Ident?
    ensures fun.Ident? ==> r == Some(fun)
    ensures fun.Selector? ==> r == Some(Ident(fun.sel, fun.selPos))
  {
    match fun
    case Selector(_, sel, selPos) => Some(Ident(sel, selPos))
    case Ident(_, _) => Some(fun)
    case _ => None
  }

  /** The identifier `name` at `pos` resolves to a declaration of one of the
      two Ginkgo packages. */
  predicate DeclaredInGinkgo(info: TypesInfo, name: string, pos: Pos) {
    var obj := info.objectOf(name, pos);
    obj.Some? && (info.pkgPath(obj.value) == Some(GinkgoV1Path) || info.pkgPath(obj.value) == Some(GinkgoV2Path))
  }

  /** isGinkgoIdentifier: the identifier's object is declared in one of the
      two Ginkgo packages. An identifier without an object, or one whose
      object has no package (a universe object), panics. */
  function IsGinkgoIdentifier(info: TypesInfo, id: Node): (r: Result<bool>)
    requires id.Ident?
    ensures r == Ok(true) <==> DeclaredInGinkgo(info, id.name, id.pos)
    ensures info.ObjectOf(id).None? ==> r == Err(NilObject)
    ensures info.ObjectOf(id).Some? && info.pkgPath(info.ObjectOf(id).value).None? ==> r == Err(NilPackage)
    ensures r.Ok? <==> info.ObjectOf(id).Some? && info.pkgPath(info.ObjectOf(id).value).Some?
  {
    match info.ObjectOf(id)
    case None => Err(NilObject)
    case Some(obj) =>
      match info.pkgPath(obj)
      case None => Err(NilPackage)
      case Some(path) => Ok(path == GinkgoV2Path || path == GinkgoV1Path)
  }

  /** findGinkgoItCalls' callback at one node: a call of `It` or `pkg.It`
      whose `It` comes from Ginkgo. The package is asked for only once the
      name is `It`. */
  function IsGinkgoItCall(info: TypesInfo, n: Node): (r: Result<bool>)
    ensures r == Ok(true) <==>
              n.Call? && CallIdentifier(n.fun).Some? && CallIdentifier(n.fun).value.name == "It" &&
              DeclaredInGinkgo(info, "It", CallIdentifier(n.fun).value.pos)
    ensures r.Err? ==> n.Call? && CallIdentifier(n.fun).Some? && CallIdentifier(n.fun).value.name == "It"
  {
    if !n.Call? then Ok(false)
    else
      match CallIdentifier(n.fun)
      case None => Ok(false)
      case Some(id) => if id.name == "It" then IsGinkgoIdentifier(info, id) else Ok(false)
  }

  function MatchesShape(info: TypesInfo, shape: CallShape, n: Node): Result<bool> {
    match shape
    case TestingTMethod(methodName) => IsTestingTCall(info, n, methodName)
    case GinkgoIt => IsGinkgoItCall(info, n)
  }

  /** The matches an ast.Inspect walk records, in the order it records them:
      a match is recorded and not searched inside (the callback returns
      false); anything else is descended into. A panic ends the walk. */
  function CallMatches(info: TypesInfo, shape: CallShape, n: Node): (r: Result<seq<Node>>)
    ensures r.Ok? ==> forall m | m in r.value :: MatchesShape(info, shape, m) == Ok(true)
    decreases Size(n), 0
  {
    var isMatch :- MatchesShape(info, shape, n);
    if isMatch then Ok([n])
    else
      ChildrenSize(n);
      CallMatchesSeq(info, shape, Children(n))
  }

  function CallMatchesSeq(info: TypesInfo, shape: CallShape, ns: seq<Node>): (r: Result<seq<Node>>)
    ensures r.Ok? ==> forall m | m in r.value :: MatchesShape(info, shape, m) == Ok(true)
    decreases SizeSeq(ns), 1
  {
    if ns == [] then Ok([])
    else Chain(CallMatches(info, shape, ns[0]), CallMatchesSeq(info, shape, ns[1..]))
  }

  /** What the walk leaves in matchingCallExpression: each match overwrites
      the previous one, so the last one recorded, or nil. */
  function Resume(matching: Option<Node>, rest: Result<seq<Node>>): (r: Result<Option<Node>>)
    ensures r.Err? <==> rest.Err?
    ensures rest.Err? ==> r == Err(rest.fault)
    ensures rest.Ok? && rest.value == [] ==> r == Ok(matching)
    ensures rest.Ok? && rest.value != [] ==> r == Ok(Some(rest.value[|rest.value| - 1]))
    ensures r.Ok? && r.value.Some? ==> r.value == matching || r.value.value in rest.value
  {
    match rest
    case Err(f) => Err(f)
    case Ok(ms) => Ok(if ms == [] then matching else Last(ms))
  }

  /** The result of findTestingTCalls / findGinkgoItCalls on a tree. */
  function FindCall(info: TypesInfo, shape: CallShape, root: Node): (r: Result<Option<Node>>)
    ensures r.Ok? && r.value.Some? ==> r.value.value.Call? && MatchesShape(info, shape, r.value.value) == Ok(true)
  {
    var matches := CallMatches(info, shape, root);
    assert matches.Ok? && matches.value != [] ==> matches.value[|matches.value| - 1] in matches.value;
    Resume(None, matches)
  }

  lemma {:induction false} CallMatchesSeqConcat(info: TypesInfo, shape: CallShape, a: seq<Node>, b: seq<Node>)
    ensures CallMatchesSeq(info, shape, a + b) == Chain(CallMatchesSeq(info, shape, a), CallMatchesSeq(info, shape, b))
  {
    if a == [] {
      assert a + b == b;
      var rest := CallMatchesSeq(info, shape, b);
      assert rest.Ok? ==> [] + rest.value == rest.value;
    } else {
      assert (a + b)[0] == a[0];
      assert (a + b)[1..] == a[1..] + b;
      CallMatchesSeqConcat(info, shape, a[1..], b);
      ChainAssociative(CallMatches(info, shape, a[0]), CallMatchesSeq(info, shape, a[1..]), CallMatchesSeq(info, shape, b));
    }
  }

  /** One step of the walk: visiting the first pending node either panics,
      records it and prunes it, or replaces it by its children. */
  lemma FindStep(info: TypesInfo, shape: CallShape, matching: Option<Node>, pending: seq<Node>)
    requires pending != []
    ensures var n := pending[0];
            var before := Resume(matching, CallMatchesSeq(info, shape, pending));
            match MatchesShape(info, shape, n)
            case Err(f) => before == Err(f)
            case Ok(true) => before == Resume(Some(n), CallMatchesSeq(info, shape, pending[1..]))
            case Ok(false) => before == Resume(matching, CallMatchesSeq(info, shape, Children(n) + pending[1..]))
  {
    var n := pending[0];
    var rest := CallMatchesSeq(info, shape, pending[1..]);
    assert CallMatchesSeq(info, shape, pending) == Chain(CallMatches(info, shape, n), rest);
    match MatchesShape(info, shape, n)
    case Err(_) =>
    case Ok(true) =>
      assert CallMatches(info, shape, n) == Ok([n]);
      ResumeAfterMatch(matching, n, rest);
    case Ok(false) =>
      assert CallMatches(info, shape, n) == CallMatchesSeq(info, shape, Children(n));
      CallMatchesSeqConcat(info, shape, Children(n), pending[1..]);
  }

  /** Recording a match and then walking on leaves the later matches' last
      one, or else that match. */
  lemma ResumeAfterMatch(matching: Option<Node>, n: Node, rest: Result<seq<Node>>)
    ensures Resume(matching, Chain(Ok([n]), rest)) == Resume(Some(n), rest)
  {
    if rest.Ok? && rest.value != [] {
      assert ([n] + rest.value)[|rest.value|] == rest.value[|rest.value| - 1];
    }
  }

  // ---------------------------------------------------------------------
  // Loop variable uses inside a closure (the two ast.Inspect report walks)
  // ---------------------------------------------------------------------

  /** The subtest walk lets through only nodes after the Parallel call;
      the Ginkgo walk (None) lets through every node. */
  predicate SkippedBefore(notAfter: Option<Pos>, n: Node): (r: bool)
    ensures notAfter.None? ==> !r
    ensures notAfter.Some? ==> (r <==> n.Position() <= notAfter.value)
    ensures n.Ident? && notAfter.Some? ==> (r <==> n.pos <= notAfter.value)
  {
    notAfter.Some? && n.Position() <= notAfter.value
  }

  /** checkAndReportLoopIdentifierObject's test: an identifier whose object
      is identical to one of the loop variables' objects (slices.Any with ==,
      so two nil objects compare equal). */
  predicate IsLoopVarUse(info: TypesInfo, loopVarObjects: seq<Option<Symbol>>, n: Node): (r: bool)
    ensures r <==> n.Ident? && exists i :: 0 <= i < |loopVarObjects| && loopVarObjects[i] == info.ObjectOf(n)
  {
    n.Ident? && info.ObjectOf(n) in loopVarObjects
  }

  /** Whether a report walk flags a node: an identifier whose object is a
      loop variable's, placed after the Parallel call when there is one. */
  predicate Reported(info: TypesInfo, loopVarObjects: seq<Option<Symbol>>, notAfter: Option<Pos>, n: Node): (r: bool)
    ensures r <==> n.Ident? && info.ObjectOf(n) in loopVarObjects && (notAfter.None? || n.pos > notAfter.value)
  {
    !SkippedBefore(notAfter, n) && IsLoopVarUse(info, loopVarObjects, n)
  }

  /** The diagnostics a report walk over a closure appends. A node the
      position filter skips is still descended into; a reported identifier
      is not (it has no children anyway). */
  function LoopVarUses(info: TypesInfo, loopVarObjects: seq<Option<Symbol>>, notAfter: Option<Pos>,
                       kind: CheckKind, n: Node): (r: seq<Diagnostic>)
    ensures forall d | d in r :: d.message.LoopVarCaptured? && d.message.kind == kind
    decreases Size(n), 0
  {
    if Reported(info, loopVarObjects, notAfter, n) then [UseDiagnostic(kind, n)]
    else
      ChildrenSize(n);
      LoopVarUsesSeq(info, loopVarObjects, notAfter, kind, Children(n))
  }

  function LoopVarUsesSeq(info: TypesInfo, loopVarObjects: seq<Option<Symbol>>, notAfter: Option<Pos>,
                          kind: CheckKind, ns: seq<Node>): (r: seq<Diagnostic>)
    ensures forall d | d in r :: d.message.LoopVarCaptured? && d.message.kind == kind
    decreases SizeSeq(ns), 1
  {
    if ns == [] then []
    else LoopVarUses(info, loopVarObjects, notAfter, kind, ns[0])
         + LoopVarUsesSeq(info, loopVarObjects, notAfter, kind, ns[1..])
  }

  lemma {:induction false} LoopVarUsesSeqConcat(info: TypesInfo, loopVarObjects: seq<Option<Symbol>>, notAfter: Option<Pos>,
                                                kind: CheckKind, a: seq<Node>, b: seq<Node>)
    ensures LoopVarUsesSeq(info, loopVarObjects, notAfter, kind, a + b)
         == LoopVarUsesSeq(info, loopVarObjects, notAfter, kind, a) + LoopVarUsesSeq(info, loopVarObjects, notAfter, kind, b)
  {
    if a == [] {
      assert a + b == b;
    } else {
      assert (a + b)[0] == a[0];
      assert (a + b)[1..] == a[1..] + b;
      LoopVarUsesSeqConcat(info, loopVarObjects, notAfter, kind, a[1..], b);
    }
  }

  /** One step of the report walk: the first pending node is either
      reported and pruned, or replaced by its children. */
  lemma ReportStep(info: TypesInfo, loopVarObjects: seq<Option<Symbol>>, notAfter: Option<Pos>,
                   kind: CheckKind, pending: seq<Node>)
    requires pending != []
    ensures var n := pending[0];
            LoopVarUsesSeq(info, loopVarObjects, notAfter, kind, pending)
            == if Reported(info, loopVarObjects, notAfter, n)
               then [UseDiagnostic(kind, n)] + LoopVarUsesSeq(info, loopVarObjects, notAfter, kind, pending[1..])
               else LoopVarUsesSeq(info, loopVarObjects, notAfter, kind, Children(n) + pending[1..])
  {
    LoopVarUsesSeqConcat(info, loopVarObjects, notAfter, kind, Children(pending[0]), pending[1..]);
  }

  // ---------------------------------------------------------------------
  // The per-loop checks, as functions of the tree
  // ---------------------------------------------------------------------

  /** getLoopNodeIdentifiersObjects: the loop variables' objects, one per
      bound identifier, in the same order. */
  function GetLoopNodeIdentifiersObjects(info: TypesInfo, loopNode: Node): (r: Result<seq<Option<Symbol>>>)
    ensures r.Ok? <==> GetLoopVarsIdentifiers(loopNode).Ok?
    ensures r.Err? ==> r.fault == GetLoopVarsIdentifiers(loopNode).fault
    ensures r.Ok? ==> var ids := GetLoopVarsIdentifiers(loopNode).value;
                      |r.value| == |ids| && forall i :: 0 <= i < |ids| ==> r.value[i] == info.ObjectOf(ids[i])
  {
    var ids :- GetLoopVarsIdentifiers(loopNode);
    Ok(seq(|ids|, i requires 0 <= i < |ids| => info.ObjectOf(ids[i])))
  }

  /** getSubtestClosure: the second argument when it is a function literal,
      nil when it is anything else; a call with fewer than two arguments
      indexes out of range. */
  function GetSubtestClosure(runCall: Node): (r: Result<Option<Node>>)
    requires runCall.Call?
    ensures |runCall.args| < 2 ==> r == Err(IndexOutOfRange(1, |runCall.args|))
    ensures |runCall.args| >= 2 ==> r.Ok? && (r.value.Some? <==> runCall.args[1].FuncLit?)
    ensures r.Ok? && r.value.Some? ==> r.value.value == runCall.args[1]
  {
    if |runCall.args| < 2 then Err(IndexOutOfRange(1, |runCall.args|))
    else if runCall.args[1].FuncLit? then Ok(Some(runCall.args[1]))
    else Ok(None)
  }

  /** isParallelFunctionClosure: the position of the Parallel call the search
      finds in the closure's body, if any. */
  function ParallelCallPos(info: TypesInfo, closure: Node): (r: Result<Option<Pos>>)
    requires closure.FuncLit?
    ensures var found := FindCall(info, TestingTMethod("Parallel"), closure.body);
            (r.Ok? <==> found.Ok?) &&
            (r.Err? ==> r.fault == found.fault) &&
            (r.Ok? ==> (r.value.Some? <==> found.value.Some?)) &&
            (r.Ok? && r.value.Some? ==> r.value.value == found.value.value.fun.x.pos)
  {
    var parallelCall :- FindCall(info, TestingTMethod("Parallel"), closure.body);
    if parallelCall.None? then Ok(None)
    else
      var call := parallelCall.value;
      assert MatchesShape(info, TestingTMethod("Parallel"), call) == Ok(true);
      // Node.Pos() of `x.Parallel()` is the position of its receiver x.
      assert call.Position() == call.fun.Position() == call.fun.x.Position();
      Ok(Some(call.Position()))
  }

  /** checkAndReportLoop: the diagnostics of the subtest check, or the panic
      that ends it (always before anything is reported). */
  function SubtestDiagnostics(info: TypesInfo, loopNode: Node): (r: Result<seq<Diagnostic>>)
    ensures GetLoopVarsIdentifiers(loopNode).Err? ==> r == Err(GetLoopVarsIdentifiers(loopNode).fault)
    ensures r.Ok? ==> forall d | d in r.value :: d.message.LoopVarCaptured? && d.message.kind == GoTest
  {
    var loopVarObjects :- GetLoopNodeIdentifiersObjects(info, loopNode);
    var body :- GetLoopBody(loopNode);
    var runCall :- FindCall(info, TestingTMethod("Run"), body);
    if runCall.None? then Ok([])
    else
      var closure :- GetSubtestClosure(runCall.value);
      if closure.None? then Ok([])
      else
        var parallelPos :- ParallelCallPos(info, closure.value);
        if parallelPos.None? then Ok([])
        else Ok(LoopVarUses(info, loopVarObjects, parallelPos, GoTest, closure.value))
  }

  /** checkAndReportLoopGinkgo: the diagnostics of the Ginkgo check, or the
      panic that ends it. No position filter applies. */
  function GinkgoDiagnostics(info: TypesInfo, loopNode: Node): (r: Result<seq<Diagnostic>>)
    ensures GetLoopVarsIdentifiers(loopNode).Err? ==> r == Err(GetLoopVarsIdentifiers(loopNode).fault)
    ensures r.Ok? ==> forall d | d in r.value :: d.message.LoopVarCaptured? && d.message.kind == Ginkgo
  {
    var loopVarObjects :- GetLoopNodeIdentifiersObjects(info, loopNode);
    var body :- GetLoopBody(loopNode);
    var itCall :- FindCall(info, GinkgoIt, body);
    if itCall.None? then Ok([])
    else
      var closure :- GetSubtestClosure(itCall.value);
      if closure.None? then Ok([])
      else Ok(LoopVarUses(info, loopVarObjects, None, Ginkgo, closure.value))
  }

  /** What one loop contributes under the recover boundary of
      findIgnoredTests: the subtest check, then the Ginkgo check; a panic
      adds one diagnostic at the loop and skips whatever was left. */
  function LoopDiagnostics(info: TypesInfo, loopNode: Node): (r: seq<Diagnostic>)
    ensures (SubtestDiagnostics(info, loopNode).Err? || GinkgoDiagnostics(info, loopNode).Err?) <==>
              (r != [] && r[|r| - 1].message.Panic?)
    ensures forall i | 0 <= i < |r| - 1 :: r[i].message.LoopVarCaptured?
    ensures forall d | d in r && d.message.Panic? :: d.pos == loopNode.Position()
  {
    match SubtestDiagnostics(info, loopNode)
    case Err(f) => [Diagnostic(loopNode.Position(), Panic(f))]
    case Ok(subtest) =>
      match GinkgoDiagnostics(info, loopNode)
      case Err(f) => subtest + [Diagnostic(loopNode.Position(), Panic(f))]
      case Ok(ginkgo) => subtest + ginkgo
  }

  /** The loops among the given nodes, in the same order. */
  function FilterLoops(ns: seq<Node>): (r: seq<Node>)
    ensures forall m :: m in r <==> m in ns && m.IsLoop()
  {
    if ns == [] then []
    else
      assert forall m :: m in ns <==> m == ns[0] || m in ns[1..];
      (if ns[0].IsLoop() then [ns[0]] else []) + FilterLoops(ns[1..])
  }

  /** The filter keeps the order of what it keeps: it distributes over
      concatenation, */
  lemma {:induction false} FilterLoopsConcat(a: seq<Node>, b: seq<Node>)
    ensures FilterLoops(a + b) == FilterLoops(a) + FilterLoops(b)
  {
    if a == [] {
      assert a + b == b;
    } else {
      assert (a + b)[0] == a[0];
      assert (a + b)[1..] == a[1..] + b;
      FilterLoopsConcat(a[1..], b);
    }
  }

  /** and a single node is kept exactly when it is a loop. */
  lemma FilterLoopsSingle(n: Node)
    ensures FilterLoops([n]) == if n.IsLoop() then [n] else []
  {
    assert [n][1..] == [];
  }

  /** inspector.Preorder restricted to *ast.ForStmt and *ast.RangeStmt. */
  function LoopNodes(root: Node): (r: seq<Node>)
    ensures forall m :: m in r <==> m in Preorder(root) && m.IsLoop()
  {
    FilterLoops(Preorder(root))
  }

  function LoopsDiagnostics(info: TypesInfo, loopNodes: seq<Node>): (r: seq<Diagnostic>)
    ensures forall d | d in r && d.message.Panic? :: exists l :: l in loopNodes && d.pos == l.Position()
  {
    if loopNodes == [] then []
    else
      var earlier, last := loopNodes[..|loopNodes| - 1], loopNodes[|loopNodes| - 1];
      assert forall l | l in earlier :: l in loopNodes;
      assert last in loopNodes;
      LoopsDiagnostics(info, earlier) + LoopDiagnostics(info, last)
  }

  lemma LoopsDiagnosticsPrefix(info: TypesInfo, loopNodes: seq<Node>, i: nat)
    requires i < |loopNodes|
    ensures LoopsDiagnostics(info, loopNodes[..i + 1]) == LoopsDiagnostics(info, loopNodes[..i]) + LoopDiagnostics(info, loopNodes[i])
  {
    assert loopNodes[..i + 1][..i] == loopNodes[..i];
  }

  /** Everything findIgnoredTests reports for a tree. */
  function Analysis(info: TypesInfo, root: Node): (r: seq<Diagnostic>)
    ensures forall d | d in r && d.message.Panic? :: exists l :: l in Preorder(root) && l.IsLoop() && d.pos == l.Position()
  {
    LoopsDiagnostics(info, LoopNodes(root))
  }

  // ---------------------------------------------------------------------
  // The analysis pass and the imperative rule
  // ---------------------------------------------------------------------

  /** The analysis.Pass the rule runs with: the type checker's tables and
      the diagnostics reported so far. */
  class Pass {
    const info: TypesInfo
    var diagnostics: seq<Diagnostic>

    constructor (info: TypesInfo)
      ensures this.info == info && diagnostics == []
    {
      this.info := info;
      diagnostics := [];
    }

    /** pass.Reportf */
    method Reportf(d: Diagnostic)
      modifies this
      ensures diagnostics == old(diagnostics) + [d]
    {
      diagnostics := diagnostics + [d];
    }
  }

  /** findTestingTCalls: walks the tree in preorder, remembering each
      `x.<methodName>(…)` call on a *testing.T and not searching inside it. */
  method FindTestingTCalls(pass: Pass, rootNode: Node, methodName: string) returns (r: Result<Option<Node>>)
    ensures r == FindCall(pass.info, TestingTMethod(methodName), rootNode)
  {
    var shape := TestingTMethod(methodName);
    var matchingCallExpression: Option<Node> := None;
    var pending := [rootNode];
    assert pending[1..] == [];
    while pending != []
      invariant Resume(matchingCallExpression, CallMatchesSeq(pass.info, shape, pending)) == FindCall(pass.info, shape, rootNode)
      decreases SizeSeq(pending)
    {
      var descendantNode := pending[0];
      FindStep(pass.info, shape, matchingCallExpression, pending);
      ChildrenSize(descendantNode);
      SizeSeqConcat(Children(descendantNode), pending[1..]);
      var isMatch := IsTestingTCall(pass.info, descendantNode, methodName);
      if isMatch.Err? {
        return Err(isMatch.fault);
      }
      if isMatch.value {
        matchingCallExpression := Some(descendantNode);
        pending := pending[1..];
      } else {
        pending := Children(descendantNode) + pending[1..];
      }
    }
    return Ok(matchingCallExpression);
  }

  /** findGinkgoItCalls: walks the tree in preorder, remembering each call of
      Ginkgo's `It` and not searching inside it. */
  method FindGinkgoItCalls(pass: Pass, rootNode: Node) returns (r: Result<Option<Node>>)
    ensures r == FindCall(pass.info, GinkgoIt, rootNode)
  {
    var matchingCallExpression: Option<Node> := None;
    var pending := [rootNode];
    assert pending[1..] == [];
    while pending != []
      invariant Resume(matchingCallExpression, CallMatchesSeq(pass.info, GinkgoIt, pending)) == FindCall(pass.info, GinkgoIt, rootNode)
      decreases SizeSeq(pending)
    {
      var descendantNode := pending[0];
      FindStep(pass.info, GinkgoIt, matchingCallExpression, pending);
      ChildrenSize(descendantNode);
      SizeSeqConcat(Children(descendantNode), pending[1..]);
      var isMatch := IsGinkgoItCall(pass.info, descendantNode);
      if isMatch.Err? {
        return Err(isMatch.fault);
      }
      if isMatch.value {
        matchingCallExpression := Some(descendantNode);
        pending := pending[1..];
      } else {
        pending := Children(descendantNode) + pending[1..];
      }
    }
    return Ok(matchingCallExpression);
  }

  /** isParallelFunctionClosure */
  method IsParallelFunctionClosure(pass: Pass, closure: Node) returns (r: Result<Option<Pos>>)
    requires closure.FuncLit?
    ensures r == ParallelCallPos(pass.info, closure)
  {
    var parallelCall := FindTestingTCalls(pass, closure.body, "Parallel");
    if parallelCall.Err? {
      return Err(parallelCall.fault);
    }
    if parallelCall.value.None? {
      return Ok(None);
    }
    return Ok(Some(parallelCall.value.value.Position()));
  }

  /** checkAndReportLoopIdentifierObject: reports a use of a loop variable
      and tells the walk not to descend into it. */
  method CheckAndReportLoopIdentifierObject(pass: Pass, loopVarsIdentifiersObjects: seq<Option<Symbol>>,
                                            node: Node, kind: CheckKind) returns (descend: bool)
    modifies pass
    ensures descend <==> !IsLoopVarUse(pass.info, loopVarsIdentifiersObjects, node)
    ensures pass.diagnostics == old(pass.diagnostics) + if descend then [] else [UseDiagnostic(kind, node)]
  {
    if node.Ident? {
      var identifierObject := pass.info.ObjectOf(node);
      if identifierObject in loopVarsIdentifiersObjects {
        pass.Reportf(Diagnostic(node.pos, LoopVarCaptured(kind, node.name)));
        return false;
      }
    }
    return true;
  }

  /** The ast.Inspect report walk over a closure shared by both checks:
      nodes at or before `notAfter` are skipped but still descended into. */
  method ReportLoopVarUses(pass: Pass, loopVarsIdentifiersObjects: seq<Option<Symbol>>,
                           notAfter: Option<Pos>, kind: CheckKind, closure: Node)
    modifies pass
    ensures pass.diagnostics == old(pass.diagnostics) + LoopVarUses(pass.info, loopVarsIdentifiersObjects, notAfter, kind, closure)
  {
    var pending := [closure];
    assert pending[1..] == [];
    ghost var target := old(pass.diagnostics) + LoopVarUses(pass.info, loopVarsIdentifiersObjects, notAfter, kind, closure);
    while pending != []
      invariant pass.diagnostics + LoopVarUsesSeq(pass.info, loopVarsIdentifiersObjects, notAfter, kind, pending) == target
      decreases SizeSeq(pending)
    {
      var closureDescendantNode := pending[0];
      ChildrenSize(closureDescendantNode);
      SizeSeqConcat(Children(closureDescendantNode), pending[1..]);
      ReportStep(pass.info, loopVarsIdentifiersObjects, notAfter, kind, pending);
      ghost var before := pass.diagnostics;
      ghost var reported := Reported(pass.info, loopVarsIdentifiersObjects, notAfter, closureDescendantNode);
      var descend := true;
      if notAfter.None? || closureDescendantNode.Position() > notAfter.value {
        descend := CheckAndReportLoopIdentifierObject(pass, loopVarsIdentifiersObjects, closureDescendantNode, kind);
      }
      assert descend <==> !reported;
      if descend {
        assert pass.diagnostics == before;
        pending := Children(closureDescendantNode) + pending[1..];
      } else {
        var use := UseDiagnostic(kind, closureDescendantNode);
        assert pass.diagnostics == before + [use];
        ConcatAssociative(before, [use], LoopVarUsesSeq(pass.info, loopVarsIdentifiersObjects, notAfter, kind, pending[1..]));
        pending := pending[1..];
      }
    }
  }

  /** checkAndReportLoop: the subtest check. A panic is returned as a fault
      for the caller's recover boundary. */
  method CheckAndReportLoop(pass: Pass, loopNode: Node) returns (fault: Option<Fault>)
    modifies pass
    ensures SubtestDiagnostics(pass.info, loopNode).Ok? ==>
              fault.None? && pass.diagnostics == old(pass.diagnostics) + SubtestDiagnostics(pass.info, loopNode).value
    ensures SubtestDiagnostics(pass.info, loopNode).Err? ==>
              fault == Some(SubtestDiagnostics(pass.info, loopNode).fault) && pass.diagnostics == old(pass.diagnostics)
  {
    var loopVarsIdentifiersObjects := GetLoopNodeIdentifiersObjects(pass.info, loopNode);
    if loopVarsIdentifiersObjects.Err? {
      return Some(loopVarsIdentifiersObjects.fault);
    }
    // The loop variables were read, so loopNode is a loop and has a body.
    var body := GetLoopBody(loopNode).value;
    var runCall := FindTestingTCalls(pass, body, "Run");
    if runCall.Err? {
      return Some(runCall.fault);
    }
    if runCall.value.None? {
      return None;
    }
    var closure := GetSubtestClosure(runCall.value.value);
    if closure.Err? {
      return Some(closure.fault);
    }
    if closure.value.None? {
      return None;
    }
    var parallelTokenPos := IsParallelFunctionClosure(pass, closure.value.value);
    if parallelTokenPos.Err? {
      return Some(parallelTokenPos.fault);
    }
    if parallelTokenPos.value.None? {
      return None;
    }
    ReportLoopVarUses(pass, loopVarsIdentifiersObjects.value, parallelTokenPos.value, GoTest, closure.value.value);
    return None;
  }

  /** checkAndReportLoopGinkgo: the Ginkgo check. */
  method CheckAndReportLoopGinkgo(pass: Pass, loopNode: Node) returns (fault: Option<Fault>)
    modifies pass
    ensures GinkgoDiagnostics(pass.info, loopNode).Ok? ==>
              fault.None? && pass.diagnostics == old(pass.diagnostics) + GinkgoDiagnostics(pass.info, loopNode).value
    ensures GinkgoDiagnostics(pass.info, loopNode).Err? ==>
              fault == Some(GinkgoDiagnostics(pass.info, loopNode).fault) && pass.diagnostics == old(pass.diagnostics)
  {
    var loopVarsIdentifiersObjects := GetLoopNodeIdentifiersObjects(pass.info, loopNode);
    if loopVarsIdentifiersObjects.Err? {
      return Some(loopVarsIdentifiersObjects.fault);
    }
    // The loop variables were read, so loopNode is a loop and has a body.
    var body := GetLoopBody(loopNode).value;
    var ginkgoItCall := FindGinkgoItCalls(pass, body);
    if ginkgoItCall.Err? {
      return Some(ginkgoItCall.fault);
    }
    if ginkgoItCall.value.None? {
      return None;
    }
    var closure := GetSubtestClosure(ginkgoItCall.value.value);
    if closure.Err? {
      return Some(closure.fault);
    }
    if closure.value.None? {
      return None;
    }
    ReportLoopVarUses(pass, loopVarsIdentifiersObjects.value, None, Ginkgo, closure.value.value);
    return None;
  }

  /** The Preorder callback of findIgnoredTests: both checks on one loop,
      under a deferred recover that turns a panic into one diagnostic at the
      loop's position. */
  method CheckLoopRecovering(pass: Pass, loopNode: Node)
    modifies pass
    ensures pass.diagnostics == old(pass.diagnostics) + LoopDiagnostics(pass.info, loopNode)
  {
    ghost var start := pass.diagnostics;
    ghost var subtest := SubtestDiagnostics(pass.info, loopNode);
    ghost var ginkgo := GinkgoDiagnostics(pass.info, loopNode);
    var fault := CheckAndReportLoop(pass, loopNode);
    if fault.None? {
      fault := CheckAndReportLoopGinkgo(pass, loopNode);
      if ginkgo.Ok? {
        ConcatAssociative(start, subtest.value, ginkgo.value);
      }
    }
    if fault.Some? {
      var panicDiagnostic := Diagnostic(loopNode.Position(), Panic(fault.value));
      pass.Reportf(panicDiagnostic);
      if subtest.Ok? {
        ConcatAssociative(start, subtest.value, [panicDiagnostic]);
      }
    }
  }

  /** findIgnoredTests: every loop of the tree, in preorder. */
  method FindIgnoredTests(pass: Pass, root: Node)
    modifies pass
    ensures pass.diagnostics == old(pass.diagnostics) + Analysis(pass.info, root)
  {
    var loopNodes := LoopNodes(root);
    for i := 0 to |loopNodes|
      invariant pass.diagnostics == old(pass.diagnostics) + LoopsDiagnostics(pass.info, loopNodes[..i])
    {
      CheckLoopRecovering(pass, loopNodes[i]);
      LoopsDiagnosticsPrefix(pass.info, loopNodes, i);
      ConcatAssociative(old(pass.diagnostics), LoopsDiagnostics(pass.info, loopNodes[..i]), LoopDiagnostics(pass.info, loopNodes[i]));
    }
    assert loopNodes[..|loopNodes|] == loopNodes;
  }
}
