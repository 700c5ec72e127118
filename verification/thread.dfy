/** The threading macros `->` and `->>` (macro/thread.go). A threading form
    `(-> a f g)` is rewritten to `(g (f a))` with the previous result as the
    first argument (`->`) or the last one (`->>`). The visitor folds the
    children of a threading form on an auxiliary stack when it enters the
    form and moves the single result to a fresh output root when it leaves.
    Everything that is not a threading form is dropped from the output. */
module ThreadMacro {

  import opened Outcomes
  import opened Sexpr
  import opened Walker
  import Stack = ExprStack

  datatype Mode = First | Last

  /** The macro object: its mode, the output root and the auxiliary stack. */
  datatype ThreadState = ThreadState(mode: Mode, sexp: Sexp, stack: Stack.ExpressionStack)

  const TranslationFailed: string := "threading macro translation failed"
  const AtomicTarget: string := "threading macro not applicable to atomic expressions"

  function Identifier(mode: Mode): string {
    match mode
    case First => "->"
    case Last => "->>"
  }

  function NewThreadMacro(mode: Mode): (t: ThreadState)
    ensures t.mode == mode && t.sexp == NewSexpression("root", []) && Stack.Empty(t.stack)
  {
    ThreadState(mode, NewSexpression("root", []), Stack.NewExpressionStack())
  }

  /** The previous result `prev` becomes the first or the last argument of
      the form `target`. */
  function Insert(mode: Mode, target: Sexp, prev: Sexp): (r: Sexp)
    ensures r.kind == target.kind && r.value == target.value
    ensures |r.children| == |target.children| + 1
    ensures mode == First ==> r.children == [DeepCopy(prev)] + target.children
    ensures mode == Last ==> r.children == target.children + [DeepCopy(prev)]
  {
    match mode
    case First => Sexp(target.kind, [DeepCopy(prev)] + target.children, target.value)
    case Last => Sexp(target.kind, target.children + [DeepCopy(prev)], target.value)
  }

  /** The loop of `Enter` over the children of a threading form: the first
      copy seeds the stack; each later copy must be compound, receives the
      popped previous result and is pushed back. */
  function Fold(mode: Mode, st: Stack.ExpressionStack, cs: seq<Sexp>): (r: (Stack.ExpressionStack, Outcome<Unit>))
    decreases |cs|
  {
    if |cs| == 0 then (st, Ok(Unit))
    else
      var copy := DeepCopy(cs[0]);
      if Stack.Empty(st) then Fold(mode, Stack.Push(st, copy), cs[1..])
      else
        var (last, st1) := Stack.Pop(st);
        if IsAtomic(copy) then (st1, Fail(Error(AtomicTarget)))
        else Fold(mode, Stack.Push(st1, Insert(mode, copy, last.value)), cs[1..])
  }

  function Before(t: ThreadState): ThreadState {
    t.(sexp := NewSexpression("root", []), stack := Stack.NewExpressionStack())
  }

  function After(t: ThreadState): ThreadState {
    t
  }

  /** `Enter`: a threading form is folded and not descended into; any
      other node is descended into. */
  function Enter(t: ThreadState, e: Sexp): (ThreadState, Outcome<bool>) {
    if e.kind == Identifier(t.mode) then
      var (st, res) := Fold(t.mode, t.stack, e.children);
      (t.(stack := st), if res.Fail? then Fail(res.error) else Ok(false))
    else (t, Ok(true))
  }

  /** `Leave`: a threading form must have left exactly one tree on the
      stack, which moves to the output root. */
  function Leave(t: ThreadState, e: Sexp): (ThreadState, Outcome<Unit>) {
    if e.kind == Identifier(t.mode) then
      if Stack.Len(t.stack) != 1 then (t, Fail(Error(TranslationFailed)))
      else
        var (last, st) := Stack.Pop(t.stack);
        (t.(sexp := Append(t.sexp, last.value), stack := st), Ok(Unit))
    else (t, Ok(Unit))
  }

  /** `Result`: the output root, or an error when no form was rewritten. */
  function Result(t: ThreadState): (r: Outcome<Sexp>)
    ensures r.Fail? <==> |t.sexp.children| == 0
    ensures r.Fail? ==> r.error == Error(TranslationFailed)
    ensures r.Ok? ==> r.value == t.sexp
  {
    if |t.sexp.children| == 0 then Fail(Error(TranslationFailed)) else Ok(t.sexp)
  }

  function Visitor(): Walker.Visitor<ThreadState> {
    Walker.Visitor(Before, Enter, Leave, After)
  }

  // ---------------------------------------------------------------------
  // The meaning of a threading form, stated without the stack.

  /** `acc` threaded through the forms `cs`: the last form is outermost. */
  function ThreadOnto(mode: Mode, acc: Sexp, cs: seq<Sexp>): Sexp
    decreases |cs|
  {
    if |cs| == 0 then acc
    else Insert(mode, DeepCopy(cs[|cs| - 1]), ThreadOnto(mode, acc, cs[..|cs| - 1]))
  }

  /** The rewriting of the threading form whose children are `cs`. */
  function Threaded(mode: Mode, cs: seq<Sexp>): Sexp
    requires |cs| > 0
  {
    ThreadOnto(mode, DeepCopy(cs[0]), cs[1..])
  }

  predicate SomeAtomic(cs: seq<Sexp>) {
    exists i :: 0 <= i < |cs| && IsAtomic(cs[i])
  }

  /** What a threading form turns into, or the error it raises. */
  function FormResult(mode: Mode, e: Sexp): Outcome<Sexp> {
    if |e.children| == 0 then Fail(Error(TranslationFailed))
    else if SomeAtomic(e.children[1..]) then Fail(Error(AtomicTarget))
    else Ok(Threaded(mode, e.children))
  }

  /** The rewritten threading forms of a tree that are not inside another
      threading form, in the order the walk reaches them; or the first
      error. */
  function Collect(mode: Mode, e: Sexp): Outcome<seq<Sexp>>
    decreases e, 1
  {
    if e.kind == Identifier(mode) then
      var f :- FormResult(mode, e);
      Ok([f])
    else CollectAll(mode, e.children)
  }

  function CollectAll(mode: Mode, cs: seq<Sexp>): Outcome<seq<Sexp>>
    decreases cs, 0
  {
    if |cs| == 0 then Ok([])
    else
      var a :- Collect(mode, cs[0]);
      var b :- CollectAll(mode, cs[1..]);
      Ok(a + b)
  }

  lemma {:induction false} ThreadOntoStep(mode: Mode, acc: Sexp, c: Sexp, cs: seq<Sexp>)
    ensures ThreadOnto(mode, Insert(mode, DeepCopy(c), acc), cs) == ThreadOnto(mode, acc, [c] + cs)
    decreases |cs|
  {
    if |cs| == 0 {
      assert ([c] + cs)[..0] == [];
    } else {
      var ds := [c] + cs;
      assert ds[..|ds| - 1] == [c] + cs[..|cs| - 1];
      ThreadOntoStep(mode, acc, c, cs[..|cs| - 1]);
    }
  }

  /** The fold over a one-element stack leaves the threaded tree alone on
      the stack, or fails exactly when a later child is atomic. */
  lemma {:induction false} FoldThreads(mode: Mode, acc: Sexp, cs: seq<Sexp>)
    ensures var (st, res) := Fold(mode, Stack.ExpressionStack([acc]), cs);
            (res.Ok? <==> !SomeAtomic(cs))
            && (res.Fail? ==> res.error == Error(AtomicTarget))
            && (res.Ok? ==> st.data == [ThreadOnto(mode, acc, cs)])
    decreases |cs|
  {
    if |cs| > 0 {
      SomeAtomicTail(cs);
      FoldStep(mode, acc, cs);
      if !IsAtomic(cs[0]) {
        var next := Insert(mode, DeepCopy(cs[0]), acc);
        FoldThreads(mode, next, cs[1..]);
        ThreadOntoStep(mode, acc, cs[0], cs[1..]);
        assert [cs[0]] + cs[1..] == cs;
      }
    }
  }

  /** One step of the fold over a one-element stack. */
  lemma FoldStep(mode: Mode, acc: Sexp, cs: seq<Sexp>)
    requires |cs| > 0
    ensures Fold(mode, Stack.ExpressionStack([acc]), cs)
            == if IsAtomic(cs[0]) then (Stack.ExpressionStack([]), Fail(Error(AtomicTarget)))
               else Fold(mode, Stack.ExpressionStack([Insert(mode, DeepCopy(cs[0]), acc)]), cs[1..])
  {
    var st := Stack.ExpressionStack([acc]);
    assert Stack.Pop(st) == (Ok(acc), Stack.ExpressionStack([]));
    assert Stack.Push(Stack.ExpressionStack([]), Insert(mode, DeepCopy(cs[0]), acc))
           == Stack.ExpressionStack([Insert(mode, DeepCopy(cs[0]), acc)]);
  }

  /** A sequence has an atomic member when its head is atomic or its tail
      has one. */
  lemma SomeAtomicTail(cs: seq<Sexp>)
    requires |cs| > 0
    ensures SomeAtomic(cs) <==> IsAtomic(cs[0]) || SomeAtomic(cs[1..])
  {
    if SomeAtomic(cs[1..]) {
      var i :| 0 <= i < |cs[1..]| && IsAtomic(cs[1..][i]);
      assert IsAtomic(cs[i + 1]);
    }
    if SomeAtomic(cs) && !IsAtomic(cs[0]) {
      var i :| 0 <= i < |cs| && IsAtomic(cs[i]);
      assert i > 0 && IsAtomic(cs[1..][i - 1]);
    }
  }

  /** Entering a threading form on an empty stack leaves its rewriting as
      the only stack entry, or raises the form's error. */
  lemma FoldForm(mode: Mode, e: Sexp)
    requires |e.children| > 0
    ensures var (st, res) := Fold(mode, Stack.NewExpressionStack(), e.children);
            (res.Ok? <==> FormResult(mode, e).Ok?)
            && (res.Fail? ==> res == Fail(FormResult(mode, e).error))
            && (res.Ok? ==> st.data == [FormResult(mode, e).value])
  {
    var cs := e.children;
    assert Stack.Push(Stack.NewExpressionStack(), DeepCopy(cs[0])).data == [DeepCopy(cs[0])];
    FoldThreads(mode, DeepCopy(cs[0]), cs[1..]);
  }

  /** The walk of one node on an empty stack: on success the collected
      forms are appended to the output root and the stack is empty again;
      on failure the walk reports the first form's error. */
  lemma {:induction false} WalkNodeCollects(t: ThreadState, e: Sexp)
    requires Stack.Empty(t.stack)
    ensures var (t1, res) := WalkNode(Visitor(), t, e);
            t1.mode == t.mode
            && (Collect(t.mode, e).Fail? ==> res == Fail(Collect(t.mode, e).error))
            && (Collect(t.mode, e).Ok? ==>
                  res == Ok(Unit) && Stack.Empty(t1.stack)
                  && t1.sexp == Sexp(t.sexp.kind, t.sexp.children + Collect(t.mode, e).value, t.sexp.value))
    decreases e, 1
  {
    if e.kind == Identifier(t.mode) {
      WalkForm(t, e);
    } else {
      WalkOther(t, e);
      WalkChildrenCollects(t, e.children);
    }
  }

  /** The walk of a threading form: its fold, then its `Leave`. */
  lemma WalkForm(t: ThreadState, e: Sexp)
    requires Stack.Empty(t.stack) && e.kind == Identifier(t.mode)
    ensures var (t1, res) := WalkNode(Visitor(), t, e);
            t1.mode == t.mode
            && (Collect(t.mode, e).Fail? ==> res == Fail(Collect(t.mode, e).error))
            && (Collect(t.mode, e).Ok? ==>
                  res == Ok(Unit) && Stack.Empty(t1.stack)
                  && t1.sexp == Sexp(t.sexp.kind, t.sexp.children + Collect(t.mode, e).value, t.sexp.value))
  {
    var (st, res) := Fold(t.mode, t.stack, e.children);
    var t1 := t.(stack := st);
    assert Visitor().enter(t, e) == (t1, if res.Fail? then Fail(res.error) else Ok(false));
    if |e.children| > 0 {
      FoldForm(t.mode, e);
      if res.Ok? {
        assert WalkNode(Visitor(), t, e) == Leave(t1, e);
        assert Stack.Pop(st) == (Ok(st.data[0]), Stack.ExpressionStack([]));
        assert Leave(t1, e).0.sexp == Append(t.sexp, FormResult(t.mode, e).value);
      }
    } else {
      assert Fold(t.mode, t.stack, e.children) == (t.stack, Ok(Unit));
      assert WalkNode(Visitor(), t, e) == Leave(t1, e);
    }
  }

  /** Any other node is walked through, and left as it is. */
  lemma {:induction false} WalkOther(t: ThreadState, e: Sexp)
    requires Stack.Empty(t.stack) && e.kind != Identifier(t.mode)
    ensures WalkNode(Visitor(), t, e) == WalkChildren(Visitor(), t, e.children)
    decreases e, 0
  {
    WalkChildrenCollects(t, e.children);
    var (t1, res) := WalkChildren(Visitor(), t, e.children);
    assert Visitor().enter(t, e) == (t, Ok(true));
    assert Leave(t1, e) == (t1, Ok(Unit));
    if res.Ok? {
      assert res.value == Unit;
    }
  }

  lemma {:induction false} WalkChildrenCollects(t: ThreadState, cs: seq<Sexp>)
    requires Stack.Empty(t.stack)
    ensures var (t1, res) := WalkChildren(Visitor(), t, cs);
            t1.mode == t.mode
            && (CollectAll(t.mode, cs).Fail? ==> res == Fail(CollectAll(t.mode, cs).error))
            && (CollectAll(t.mode, cs).Ok? ==>
                  res == Ok(Unit) && Stack.Empty(t1.stack)
                  && t1.sexp == Sexp(t.sexp.kind, t.sexp.children + CollectAll(t.mode, cs).value, t.sexp.value))
    decreases cs, 0
  {
    if |cs| > 0 {
      WalkNodeCollects(t, cs[0]);
      var t1 := WalkNode(Visitor(), t, cs[0]).0;
      if Collect(t.mode, cs[0]).Ok? {
        WalkChildrenCollects(t1, cs[1..]);
        var a := Collect(t.mode, cs[0]).value;
        if CollectAll(t.mode, cs[1..]).Ok? {
          var b := CollectAll(t.mode, cs[1..]).value;
          assert t.sexp.children + a + b == t.sexp.children + (a + b);
        }
      }
    }
  }

  /** One threading pass as the macro processor sees it: the walk's outcome
      and then `Result`. */
  function Pass(mode: Mode, e: Sexp): (Outcome<Unit>, Outcome<Sexp>) {
    var (t, res) := Walk(Visitor(), NewThreadMacro(mode), e);
    (res, Result(t))
  }

  /** A threading pass fails its walk with the first malformed form's
      error; otherwise its result is a root holding exactly the rewritten
      threading forms, and it fails when there are none. */
  lemma PassRebuildsRoot(mode: Mode, e: Sexp)
    ensures var (walk, result) := Pass(mode, e);
            match Collect(mode, e)
            case Fail(err) => walk == Fail(err)
            case Ok(xs) =>
              walk == Ok(Unit)
              && (|xs| == 0 ==> result == Fail(Error(TranslationFailed)))
              && (|xs| > 0 ==> result == Ok(NewSexpression("root", xs)))
  {
    var t0 := Before(NewThreadMacro(mode));
    WalkNodeCollects(t0, e);
    if Collect(mode, e).Ok? {
      var xs := Collect(mode, e).value;
      assert t0.sexp.children + xs == xs;
    }
  }

  /** A tree with no form of the pass's kind comes out of the walk
      unharmed, and the pass's result is the error that makes the processor
      keep its saved copy. */
  lemma {:induction false} NoFormsCollectNothing(mode: Mode, e: Sexp)
    requires NoKind(e, Identifier(mode))
    ensures Collect(mode, e) == Ok([])
    decreases e, 1
  {
    NoFormsCollectNothingAll(mode, e.children);
  }

  lemma {:induction false} NoFormsCollectNothingAll(mode: Mode, cs: seq<Sexp>)
    requires forall i :: 0 <= i < |cs| ==> NoKind(cs[i], Identifier(mode))
    ensures CollectAll(mode, cs) == Ok([])
    decreases cs, 0
  {
    if |cs| > 0 {
      NoFormsCollectNothing(mode, cs[0]);
      assert forall i :: 0 <= i < |cs[1..]| ==> cs[1..][i] == cs[i + 1];
      NoFormsCollectNothingAll(mode, cs[1..]);
      var none: seq<Sexp> := [];
      assert none + none == none;
    }
  }
}
