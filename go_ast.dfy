/** An abstract view of the parts of go/ast and go/types the rule reads:
    syntax nodes with their source positions, the order in which
    ast.Inspect and the inspector visit them, and the type checker's
    answers (which declaration an identifier resolves to, that
    declaration's type and package). */
module GoAst {
  import opened GoRuntime

  /** A source position (token.Pos): an offset, totally ordered. */
  type Pos = int

  /** A declaration site (types.Object). Two identifiers resolve to the same
      Symbol exactly when they refer to the same declaration. */
  datatype Symbol = Symbol(decl: nat)

  /** The type checker's tables (types.Info), as an oracle. An identifier is
      named by its spelling and position; None stands for a nil object. */
  datatype TypesInfo = TypesInfo(
    objectOf: (string, Pos) -> Option<Symbol>,
    typeString: Symbol -> string,      // obj.Type().String()
    pkgPath: Symbol -> Option<string>  // obj.Pkg().Path(); None when Pkg() is nil
  )
  {
    function ObjectOf(id: Node): Option<Symbol>
      requires id.Ident?
    {
      objectOf(id.name, id.pos)
    }
  }

  /** The node kinds the rule distinguishes; every other statement or
      expression is an `Other` with its children in source order. */
  datatype Node =
    | Ident(name: string, pos: Pos)
    | Call(fun: Node, args: seq<Node>)
    | Selector(x: Node, sel: string, selPos: Pos)
    | FuncLit(params: seq<Node>, body: Node, pos: Pos)
    | Block(stmts: seq<Node>, pos: Pos)
    | For(init: Option<Node>, cond: Option<Node>, post: Option<Node>, body: Node, pos: Pos)
    | Range(key: Option<Node>, value: Option<Node>, x: Node, body: Node, pos: Pos)
    | Assign(lhs: seq<Node>, rhs: seq<Node>, pos: Pos)
    | Other(children: seq<Node>, pos: Pos)
  {
    /** Node.Pos(): a call starts at its callee and a selector at its
        operand, as in go/ast; the other kinds carry their own position. */
    function Position(): Pos {
      match this
      case Call(fun, _) => fun.Position()
      case Selector(x, _, _) => x.Position()
      case Ident(_, pos) => pos
      case FuncLit(_, _, pos) => pos
      case Block(_, pos) => pos
      case For(_, _, _, _, pos) => pos
      case Range(_, _, _, _, pos) => pos
      case Assign(_, _, pos) => pos
      case Other(_, pos) => pos
    }

    predicate IsLoop() {
      For? || Range?
    }
  }

  function OptionList(o: Option<Node>): seq<Node> {
    match o
    case None => []
    case Some(n) => [n]
  }

  /** The children of a node in the order ast.Walk visits them. The selected
      name of a selector is itself an identifier node. */
  function Children(n: Node): seq<Node> {
    match n
    case Ident(_, _) => []
    case Call(fun, args) => [fun] + args
    case Selector(x, sel, selPos) => [x, Ident(sel, selPos)]
    case FuncLit(params, body, _) => params + [body]
    case Block(stmts, _) => stmts
    case For(init, cond, post, body, _) => OptionList(init) + OptionList(cond) + OptionList(post) + [body]
    case Range(key, value, x, body, _) => OptionList(key) + OptionList(value) + [x, body]
    case Assign(lhs, rhs, _) => lhs + rhs
    case Other(children, _) => children
  }

  /** The number of nodes in a tree, the measure every walk decreases. */
  function Size(n: Node): (s: nat)
    ensures s >= 1
    decreases n
  {
    match n
    case Ident(_, _) => 1
    case Call(fun, args) => 1 + Size(fun) + SizeSeq(args)
    case Selector(x, _, _) => 2 + Size(x)
    case FuncLit(params, body, _) => 1 + SizeSeq(params) + Size(body)
    case Block(stmts, _) => 1 + SizeSeq(stmts)
    case For(init, cond, post, body, _) => 1 + SizeOption(init) + SizeOption(cond) + SizeOption(post) + Size(body)
    case Range(key, value, x, body, _) => 1 + SizeOption(key) + SizeOption(value) + Size(x) + Size(body)
    case Assign(lhs, rhs, _) => 1 + SizeSeq(lhs) + SizeSeq(rhs)
    case Other(children, _) => 1 + SizeSeq(children)
  }

  function SizeSeq(ns: seq<Node>): nat
    decreases ns
  {
    if ns == [] then 0 else Size(ns[0]) + SizeSeq(ns[1..])
  }

  function SizeOption(o: Option<Node>): nat
    decreases o
  {
    match o
    case None => 0
    case Some(n) => Size(n)
  }

  lemma {:induction false} SizeSeqConcat(a: seq<Node>, b: seq<Node>)
    ensures SizeSeq(a + b) == SizeSeq(a) + SizeSeq(b)
  {
    if a != [] {
      assert (a + b)[1..] == a[1..] + b;
      SizeSeqConcat(a[1..], b);
    } else {
      assert a + b == b;
    }
  }

  lemma SizeOptionList(o: Option<Node>)
    ensures SizeSeq(OptionList(o)) == SizeOption(o)
  {
    if o.Some? {
      assert OptionList(o)[1..] == [];
    }
  }

  lemma SizeSeqSingle(n: Node)
    ensures SizeSeq([n]) == Size(n)
  {
    assert [n][1..] == [];
  }

  lemma SizeSeqOptions(a: Option<Node>, b: Option<Node>, rest: seq<Node>)
    ensures SizeSeq(OptionList(a) + OptionList(b) + rest) == SizeOption(a) + SizeOption(b) + SizeSeq(rest)
  {
    SizeOptionList(a); SizeOptionList(b);
    SizeSeqConcat(OptionList(a), OptionList(b));
    SizeSeqConcat(OptionList(a) + OptionList(b), rest);
  }

  /** A node's children account for every node of its tree but itself, so
      every walk below shrinks. */
  lemma ChildrenSize(n: Node)
    ensures SizeSeq(Children(n)) == Size(n) - 1
  {
    match n
    case Ident(_, _) =>
    case Call(fun, args) =>
      SizeSeqConcat([fun], args);
      SizeSeqSingle(fun);
    case Selector(x, sel, selPos) =>
      SizeSeqConcat([x], [Ident(sel, selPos)]);
      SizeSeqSingle(x);
      SizeSeqSingle(Ident(sel, selPos));
    case FuncLit(params, body, _) =>
      SizeSeqConcat(params, [body]);
      SizeSeqSingle(body);
    case Block(_, _) =>
    case For(_, _, _, _, _) =>
      ForChildrenSize(n);
    case Range(_, _, _, _, _) =>
      RangeChildrenSize(n);
    case Assign(lhs, rhs, _) =>
      SizeSeqConcat(lhs, rhs);
    case Other(_, _) =>
  }

  lemma ForChildrenSize(n: Node)
    requires n.For?
    ensures SizeSeq(Children(n)) == Size(n) - 1
  {
    var For(init, cond, post, body, _) := n;
    SizeOptionList(post);
    SizeSeqConcat(OptionList(post), [body]);
    SizeSeqSingle(body);
    assert Children(n) == OptionList(init) + OptionList(cond) + (OptionList(post) + [body]);
    SizeSeqOptions(init, cond, OptionList(post) + [body]);
  }

  lemma RangeChildrenSize(n: Node)
    requires n.Range?
    ensures SizeSeq(Children(n)) == Size(n) - 1
  {
    var Range(key, value, x, body, _) := n;
    SizeSeqConcat([x], [body]);
    SizeSeqSingle(x);
    SizeSeqSingle(body);
    assert [x, body] == [x] + [body];
    SizeSeqOptions(key, value, [x, body]);
  }

  /** The nodes of a tree in preorder: the order of ast.Inspect and of
      inspector.Preorder when nothing is pruned. */
  function Preorder(n: Node): (r: seq<Node>)
    ensures |r| == Size(n) && r[0] == n
    decreases Size(n), 0
  {
    ChildrenSize(n);
    [n] + PreorderSeq(Children(n))
  }

  function PreorderSeq(ns: seq<Node>): (r: seq<Node>)
    ensures |r| == SizeSeq(ns)
    decreases SizeSeq(ns), 1
  {
    if ns == [] then [] else Preorder(ns[0]) + PreorderSeq(ns[1..])
  }

  lemma {:induction false} PreorderSeqConcat(a: seq<Node>, b: seq<Node>)
    ensures PreorderSeq(a + b) == PreorderSeq(a) + PreorderSeq(b)
  {
    if a == [] {
      assert a + b == b;
    } else {
      assert (a + b)[0] == a[0];
      assert (a + b)[1..] == a[1..] + b;
      PreorderSeqConcat(a[1..], b);
    }
  }
}
