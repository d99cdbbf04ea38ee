/** The parts of Go's runtime behaviour the rule depends on: nil values
    (Option) and the panics the rule can raise (Fault), carried as a
    failure-compatible Result so that `:-` propagates a panic the way Go
    unwinds the stack. */
module GoRuntime {

  datatype Option<+T> = None | Some(value: T)

  /** The runtime faults the rule can trigger, by cause. */
  datatype Fault =
    | NilObject           // a method called on a nil types.Object (ObjectOf found nothing)
    | NilPackage          // Path() called on the nil *types.Package of a universe object
    | IndexOutOfRange(index: nat, length: nat)
    | NotAnIdent          // the type assertion expr.(*ast.Ident) failed
    | UnexpectedNodeType  // the explicit panic("unexpected node type")

  datatype Result<+T> = Ok(value: T) | Err(fault: Fault) {

    predicate IsFailure() {
      Err?
    }

    function PropagateFailure<U>(): Result<U>
      requires Err?
    {
      Err(fault)
    }

    function Extract(): T
      requires Ok?
    {
      value
    }
  }

  /** Runs two computations that yield lists one after the other: the first
      fault wins, otherwise the lists are concatenated. */
  function Chain<T>(first: Result<seq<T>>, second: Result<seq<T>>): (r: Result<seq<T>>)
    ensures r.Ok? <==> first.Ok? && second.Ok?
    ensures r.Ok? ==> r.value == first.value + second.value
    ensures first.Err? ==> r == first
  {
    match first
    case Err(f) => Err(f)
    case Ok(a) =>
      match second
      case Err(f) => Err(f)
      case Ok(b) => Ok(a + b)
  }

  lemma ChainAssociative<T>(a: Result<seq<T>>, b: Result<seq<T>>, c: Result<seq<T>>)
    ensures Chain(Chain(a, b), c) == Chain(a, Chain(b, c))
  {
    if a.Ok? && b.Ok? && c.Ok? {
      assert (a.value + b.value) + c.value == a.value + (b.value + c.value);
    }
  }

  lemma ConcatAssociative<T>(a: seq<T>, b: seq<T>, c: seq<T>)
    ensures (a + b) + c == a + (b + c)
  {
  }

  function Last<T>(s: seq<T>): (r: Option<T>)
    ensures r.None? <==> s == []
    ensures r.Some? ==> r.value == s[|s| - 1]
  {
    if s == [] then None else Some(s[|s| - 1])
  }

  lemma LastOfConcat<T>(a: seq<T>, b: seq<T>)
    requires b != []
    ensures Last(a + b) == Last(b)
  {
    assert (a + b)[|a + b| - 1] == b[|b| - 1];
  }
}
