/** The older thread-first macro (macro/threadfirst.go), a copy of the `->`
    half of the threading macro with the mode fixed. The macro processor
    never registers it; the model shows that it behaves exactly like the
    threading macro in First mode. */
module ThreadFirstMacro {

  import opened Outcomes
  import opened Sexpr
  import opened Walker
  import Stack = ExprStack
  import Thread = ThreadMacro

  datatype FirstState = FirstState(sexp: Sexp, stack: Stack.ExpressionStack)

  function Identifier(): string {
    "->"
  }

  function NewThreadFirstMacro(): (t: FirstState)
    ensures t.sexp == NewSexpression("root", []) && Stack.Empty(t.stack)
  {
    FirstState(NewSexpression("root", []), Stack.NewExpressionStack())
  }

  /** The loop of `Enter`: the previous result is always prepended. */
  function Fold(st: Stack.ExpressionStack, cs: seq<Sexp>): (r: (Stack.ExpressionStack, Outcome<Unit>))
    decreases |cs|
  {
    if |cs| == 0 then (st, Ok(Unit))
    else
      var copy := DeepCopy(cs[0]);
      if Stack.Empty(st) then Fold(Stack.Push(st, copy), cs[1..])
      else
        var (last, st1) := Stack.Pop(st);
        if IsAtomic(copy) then (st1, Fail(Error(Thread.AtomicTarget)))
        else Fold(Stack.Push(st1, Sexp(copy.kind, [DeepCopy(last.value)] + copy.children, copy.value)), cs[1..])
  }

  function Before(t: FirstState): FirstState {
    FirstState(NewSexpression("root", []), Stack.NewExpressionStack())
  }

  function After(t: FirstState): FirstState {
    t
  }

  function Enter(t: FirstState, e: Sexp): (FirstState, Outcome<bool>) {
    if e.kind == "->" then
      var (st, res) := Fold(t.stack, e.children);
      (t.(stack := st), if res.Fail? then Fail(res.error) else Ok(false))
    else (t, Ok(true))
  }

  function Leave(t: FirstState, e: Sexp): (FirstState, Outcome<Unit>) {
    if e.kind == "->" then
      if Stack.Len(t.stack) != 1 then (t, Fail(Error(Thread.TranslationFailed)))
      else
        var (last, st) := Stack.Pop(t.stack);
        (t.(sexp := Append(t.sexp, last.value), stack := st), Ok(Unit))
    else (t, Ok(Unit))
  }

  function Result(t: FirstState): (r: Outcome<Sexp>)
    ensures r.Fail? <==> |t.sexp.children| == 0
    ensures r.Fail? ==> r.error == Error(Thread.TranslationFailed)
    ensures r.Ok? ==> r.value == t.sexp
  {
    if |t.sexp.children| == 0 then Fail(Error(Thread.TranslationFailed)) else Ok(t.sexp)
  }

  function Visitor(): Walker.Visitor<FirstState> {
    Walker.Visitor(Before, Enter, Leave, After)
  }

  /** The macro object seen as a threading macro in First mode. */
  function AsThread(t: FirstState): Thread.ThreadState {
    Thread.ThreadState(Thread.First, t.sexp, t.stack)
  }

  /** The copied loop computes what the threading macro's loop computes in
      First mode. */
  lemma {:induction false} FoldIsFirstFold(st: Stack.ExpressionStack, cs: seq<Sexp>)
    ensures Fold(st, cs) == Thread.Fold(Thread.First, st, cs)
    decreases |cs|
  {
    if |cs| > 0 {
      var copy := DeepCopy(cs[0]);
      if Stack.Empty(st) {
        FoldIsFirstFold(Stack.Push(st, copy), cs[1..]);
      } else {
        var (last, st1) := Stack.Pop(st);
        if !IsAtomic(copy) {
          FoldIsFirstFold(Stack.Push(st1, Thread.Insert(Thread.First, copy, last.value)), cs[1..]);
        }
      }
    }
  }

  lemma SimulatesThreadFirst()
    ensures Simulates(Visitor(), Thread.Visitor(), AsThread)
  {
    forall t: FirstState, e: Sexp
      ensures Thread.Visitor().enter(AsThread(t), e) == (AsThread(Visitor().enter(t, e).0), Visitor().enter(t, e).1)
    {
      FoldIsFirstFold(t.stack, e.children);
    }
  }

  /** Walking with the thread-first macro is walking with the threading
      macro in First mode: same outcome, same output root, same result. */
  lemma SameAsThreadFirst(e: Sexp)
    ensures var (t, res) := Walk(Visitor(), NewThreadFirstMacro(), e);
            (res, Result(t)) == Thread.Pass(Thread.First, e)
  {
    SimulatesThreadFirst();
    SimulatesWalk(Visitor(), Thread.Visitor(), AsThread, NewThreadFirstMacro(), e);
  }
}
