/** Reading a loop statement: its body and the identifiers the loop binds
    (looputils.go). Type switches and type assertions on unexpected shapes
    panic; here they yield the corresponding Fault. */
module LoopUtils {
  import opened GoRuntime
  import opened GoAst

  /** getLoopBody: the body block of a `for` or `range` statement. */
  function GetLoopBody(loopNode: Node): (r: Result<Node>)
    ensures r.Ok? <==> loopNode.IsLoop()
    ensures r.Ok? ==> r.value == loopNode.body
    ensures r.Err? ==> r.fault == UnexpectedNodeType
  {
    match loopNode
    case For(_, _, _, body, _) => Ok(body)
    case Range(_, _, _, body, _) => Ok(body)
    case _ => Err(UnexpectedNodeType)
  }

  /** exprToIdent: the type assertion expr.(*ast.Ident). */
  function ExprToIdent(expr: Node): (r: Result<Node>)
    ensures r.Ok? <==> expr.Ident?
    ensures r.Ok? ==> r.value == expr
  {
    if expr.Ident? then Ok(expr) else Err(NotAnIdent)
  }

  /** isNonNilExpr: whether an optional clause is present. */
  predicate IsNonNilExpr(expr: Option<Node>): (r: bool)
    ensures r <==> OptionList(expr) != []
  {
    expr.Some?
  }

  predicate AllIdents(exprs: seq<Node>) {
    forall i :: 0 <= i < |exprs| ==> exprs[i].Ident?
  }

  /** slices.Filter(exprs, isNonNilExpr): the present clauses, in order. */
  function NonNilExprs(exprs: seq<Option<Node>>): (r: seq<Node>)
    ensures |r| <= |exprs|
    ensures forall n :: n in r <==> Some(n) in exprs
  {
    if exprs == [] then []
    else
      var rest := NonNilExprs(exprs[1..]);
      assert forall e :: e in exprs <==> e == exprs[0] || e in exprs[1..];
      if IsNonNilExpr(exprs[0]) then [exprs[0].value] + rest else rest
  }

  /** slices.Filter keeps the order of what it keeps: filtering distributes
      over concatenation, */
  lemma {:induction false} NonNilExprsConcat(a: seq<Option<Node>>, b: seq<Option<Node>>)
    ensures NonNilExprs(a + b) == NonNilExprs(a) + NonNilExprs(b)
  {
    if a == [] {
      assert a + b == b;
    } else {
      assert (a + b)[0] == a[0];
      assert (a + b)[1..] == a[1..] + b;
      NonNilExprsConcat(a[1..], b);
    }
  }

  /** and a single clause is kept exactly when it is present. */
  lemma NonNilExprsSingle(o: Option<Node>)
    ensures NonNilExprs([o]) == OptionList(o)
  {
    assert [o][1..] == [];
  }

  /** slices.Map(exprs, exprToIdent): every expression must be an identifier;
      the first one that is not panics, so no partial list is ever returned. */
  function MapExprToIdent(exprs: seq<Node>): (r: Result<seq<Node>>)
    ensures r.Ok? <==> AllIdents(exprs)
    ensures r.Ok? ==> r.value == exprs
    ensures r.Err? ==> r.fault == NotAnIdent
  {
    if exprs == [] then Ok([])
    else
      var first :- ExprToIdent(exprs[0]);
      var rest :- MapExprToIdent(exprs[1..]);
      assert exprs == [exprs[0]] + exprs[1..];
      Ok([first] + rest)
  }

  /** getLoopVarsIdentifiers: the identifiers a loop binds.
      A counting loop whose initialiser is an assignment (`:=` or `=`, the
      token is not looked at) binds its left-hand sides, in source order; any
      other initialiser binds nothing. A range loop binds its key and then its
      value, skipping absent ones. Every bound expression must be a bare
      identifier: a selector or index expression panics. */
  function GetLoopVarsIdentifiers(loopNode: Node): (r: Result<seq<Node>>)
    ensures !loopNode.IsLoop() ==> r == Err(UnexpectedNodeType)
    ensures loopNode.For? && !(loopNode.init.Some? && loopNode.init.value.Assign?) ==> r == Ok([])
    ensures loopNode.For? && loopNode.init.Some? && loopNode.init.value.Assign? ==>
              (r.Ok? <==> AllIdents(loopNode.init.value.lhs)) &&
              (r.Ok? ==> r.value == loopNode.init.value.lhs) &&
              (r.Err? ==> r.fault == NotAnIdent)
    ensures loopNode.Range? ==>
              var bound := OptionList(loopNode.key) + OptionList(loopNode.value);
              (r.Ok? <==> AllIdents(bound)) &&
              (r.Ok? ==> r.value == bound && |r.value| <= 2) &&
              (r.Err? ==> r.fault == NotAnIdent)
  {
    match loopNode
    case For(init, _, _, _, _) =>
      if init.Some? && init.value.Assign? then MapExprToIdent(init.value.lhs) else Ok([])
    case Range(key, value, _, _, _) =>
      assert NonNilExprs([key, value]) == OptionList(key) + OptionList(value) by {
        assert [key, value] == [key] + [value];
        NonNilExprsConcat([key], [value]);
        NonNilExprsSingle(key);
        NonNilExprsSingle(value);
      }
      MapExprToIdent(NonNilExprs([key, value]))
    case _ => Err(UnexpectedNodeType)
  }
}
