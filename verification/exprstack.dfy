/** The stack of open nodes (parser/stack.go), used by the parser and by the
    threading macros. The top of the stack is the last element. */
module ExprStack {

  import opened Outcomes
  import opened Sexpr

  datatype ExpressionStack = ExpressionStack(data: seq<Sexp>)

  function NewExpressionStack(): (s: ExpressionStack)
    ensures Empty(s)
  {
    ExpressionStack([])
  }

  function Push(s: ExpressionStack, item: Sexp): (r: ExpressionStack)
    ensures Len(r) == Len(s) + 1 && !Empty(r)
    ensures Peek(r) == Ok(item)
  {
    ExpressionStack(s.data + [item])
  }

  /** `Pop`: the top item and the stack without it; on an empty stack an
      error and the stack unchanged. */
  function Pop(s: ExpressionStack): (r: (Outcome<Sexp>, ExpressionStack))
    ensures Empty(s) ==> r == (Fail(Error("pop on an empty stack")), s)
    ensures !Empty(s) ==> r.0 == Peek(s) && Len(r.1) == Len(s) - 1
    ensures !Empty(s) ==> Push(r.1, r.0.value) == s
  {
    if |s.data| == 0 then (Fail(Error("pop on an empty stack")), s)
    else (Ok(s.data[|s.data| - 1]), ExpressionStack(s.data[..|s.data| - 1]))
  }

  /** `Peek`: the top item without removing it, or an error when empty. */
  function Peek(s: ExpressionStack): (r: Outcome<Sexp>)
    ensures Empty(s) <==> r.Fail?
    ensures r.Fail? ==> r.error == Error("peek on an empty stack")
    ensures r.Ok? ==> r.value == s.data[Len(s) - 1]
  {
    if |s.data| == 0 then Fail(Error("peek on an empty stack")) else Ok(s.data[|s.data| - 1])
  }

  function Len(s: ExpressionStack): nat {
    |s.data|
  }

  predicate Empty(s: ExpressionStack) {
    |s.data| == 0
  }

  /** Pop undoes Push: the last item pushed is the first popped. */
  lemma PopAfterPush(s: ExpressionStack, item: Sexp)
    ensures Pop(Push(s, item)) == (Ok(item), s)
  {
    assert (s.data + [item])[..|s.data|] == s.data;
  }

  /** A sequence of stack operations. */
  datatype Op = PushOp(item: Sexp) | PopOp

  /** Runs the operations in order; also counts the pops that succeeded. */
  function Run(s: ExpressionStack, ops: seq<Op>): (r: (ExpressionStack, nat))
    decreases |ops|
  {
    if |ops| == 0 then (s, 0)
    else
      var prev := Run(s, ops[..|ops| - 1]);
      match ops[|ops| - 1]
      case PushOp(x) => (Push(prev.0, x), prev.1)
      case PopOp =>
        var (o, t) := Pop(prev.0);
        (t, prev.1 + if o.Ok? then 1 else 0)
  }

  function Pushes(ops: seq<Op>): nat {
    if |ops| == 0 then 0 else Pushes(ops[..|ops| - 1]) + if ops[|ops| - 1].PushOp? then 1 else 0
  }

  /** The length is the number of pushes minus the number of successful pops. */
  lemma {:induction false} LenCountsOperations(ops: seq<Op>)
    ensures var r := Run(NewExpressionStack(), ops);
            Len(r.0) + r.1 == Pushes(ops)
  {
    if |ops| > 0 {
      LenCountsOperations(ops[..|ops| - 1]);
    }
  }
}
