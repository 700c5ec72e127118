/** The evaluator (eval/evaluator.go) and `eval` (eval/eval.go). The
    evaluator is a visitor: entering a node whose kind is a built-in opens
    a frame for its arguments; leaving a node pushes an atom's literal,
    validates and evaluates the built-in on the node's frame, pushes the
    result, and hands the frame's items to the frame below. `quote` captures
    its node instead of visiting the children.

    The Go evaluator also keeps a pointer to the current frame. After every
    push and pop of a frame it is reset to the top of the stack, so it is
    the top frame; the one exception is the copy of frame 0 made by
    `NewEvaluator`, which only a node of a non-built-in kind at the very top
    can write to, and such a node always fails. Here the current frame is
    the top of the stack.

    `eval` walks a fresh evaluator over the expression, sharing the
    environment. An expression can evaluate itself forever; the model
    bounds the nesting of `eval` with `fuel` and reports `OutOfFuel` where
    the Go code would not return. */
module Evaluator {

  import opened Outcomes
  import opened Values
  import opened Env
  import opened Sexpr
  import opened Walker
  import Registry
  import Builtins
  import Errors

  /** An environment in which every name is bound once, as Go's map keeps
      it; the visitor's callbacks are total, so the state carries it. */
  type ValidEnv = e: Environment | Valid(e) witness Environment([])

  /** The evaluator's fields but the frame pointer: whether a `def` is being
      visited, the stack of frames (top last) and the shared environment. */
  datatype EvalState = EvalState(isBinding: bool, frames: seq<Frame>, env: ValidEnv)

  /** `NewEvaluator`: one empty frame. */
  function NewEvaluator(env: ValidEnv): (s: EvalState)
    ensures !s.isBinding && s.frames == [[]] && s.env == env
  {
    EvalState(false, PushStackFrame([]), env)
  }

  /** `IsFunction`: the kind is the label of a built-in. */
  predicate IsFunction(kind: string) {
    Registry.BuiltinOf(kind).Some?
  }

  /** `Result`: the top item of the top frame; the empty result when there
      is no frame at all. */
  function Result(s: EvalState): (r: Value)
    ensures |s.frames| > 0 ==> r == Peek(s.frames[|s.frames| - 1])
    ensures |s.frames| == 0 ==> r == Empty
  {
    match PeekStackFrame(s.frames)
    case None => Empty
    case Some(f) => Peek(f)
  }

  function Before(s: EvalState): EvalState {
    s
  }

  function After(s: EvalState): EvalState {
    s
  }

  /** `Enter`: `def` starts binding; a built-in's node opens a frame; a
      `quote` node puts a copy of itself in that frame and is not
      descended into. */
  function Enter(s: EvalState, e: Sexp): (r: (EvalState, Outcome<bool>))
  {
    var binding := if e.kind == Registry.Symbol(Registry.Def) then true else s.isBinding;
    if !IsFunction(e.kind) then (s.(isBinding := binding), Ok(true))
    else if e.kind == Registry.Symbol(Registry.QuoteFn) then
      (EvalState(binding, s.frames + [[SexpVal(Sexpr.DeepCopy(e))]], s.env), Ok(false))
    else (EvalState(binding, PushStackFrame(s.frames), s.env), Ok(true))
  }

  /** The kind `Leave` evaluates: an identifier outside a `def` is
      resolved. */
  function Redirect(binding: bool, kind: string): string {
    if !binding && kind == "identifier" then Registry.Symbol(Registry.Resolve) else kind
  }

  /** The start of `Leave`: an atom's literal goes on the current frame
      and leaving a `def` ends binding. */
  function Prepare(s: EvalState, e: Sexp): (r: EvalState)
    requires |s.frames| > 0
    ensures |r.frames| == |s.frames| && r.frames[..|s.frames| - 1] == s.frames[..|s.frames| - 1]
    ensures r.frames[|s.frames| - 1] == if IsAtomic(e) && e.value != "" then s.frames[|s.frames| - 1] + [CharSeq(e.value)]
                                        else s.frames[|s.frames| - 1]
    ensures r.isBinding == (s.isBinding && e.kind != "def") && r.env == s.env
  {
    var top := s.frames[|s.frames| - 1];
    var f := if IsAtomic(e) && e.value != "" then Push(top, CharSeq(e.value)) else top;
    var binding := if e.kind == Registry.Symbol(Registry.Def) then false else s.isBinding;
    EvalState(binding, s.frames[..|s.frames| - 1] + [f], s.env)
  }

  /** `evaluate`: the built-in of that kind validates the frame and, when it
      accepts it, evaluates it. */
  function Dispatch(fuel: nat, kind: string, env: ValidEnv, f: Frame): (r: Outcome<Builtins.Effect>)
    ensures r.Ok? ==> Valid(r.value.env)
    ensures !IsFunction(kind) ==> r == Fail(Error("Function '" + kind + "' not avaiable"))
    decreases fuel, 4
  {
    match Registry.BuiltinOf(kind)
    case None => Fail(Error("Function '" + kind + "' not avaiable"))
    case Some(b) => Checked(fuel, b, env, f)
  }

  /** Validation, and evaluation of what it accepts. */
  function Checked(fuel: nat, b: Registry.Builtin, env: ValidEnv, f: Frame): (r: Outcome<Builtins.Effect>)
    ensures r.Ok? ==> Valid(r.value.env)
    decreases fuel, 3
  {
    match Builtins.Validate(b, env, f)
    case Some(err) => Fail(err)
    case None => Ok(Invoke(fuel, b, env, f))
  }

  /** `Leave`. On an error the state is returned as it is at that point:
      the pops of a failed evaluation and the environment changes of a
      failed nested `eval` stay. */
  function Leave(fuel: nat, s: EvalState, e: Sexp): (r: (EvalState, Outcome<Unit>))
    decreases fuel, 5
  {
    if |s.frames| == 0 then (s, Fail(NilDereference))
    else
      var s1 := Prepare(s, e);
      match Dispatch(fuel, Redirect(s.isBinding, e.kind), s1.env, s1.frames[|s1.frames| - 1])
      case Fail(err) => (s1, Fail(err))
      case Ok(eff) => Close(s1, eff, IsFunction(e.kind))
  }

  /** `Evaluate` of eval/function.go once validation has passed, with
      `eval` completed here. */
  function Invoke(fuel: nat, b: Registry.Builtin, env: ValidEnv, f: Frame): (r: Builtins.Effect)
    requires Builtins.Validate(b, env, f).None?
    ensures Valid(r.env)
    decreases fuel, 2
  {
    if b == Registry.EvalFn then EvalEval(fuel, env, f) else Builtins.Evaluate(b, env, f)
  }

  /** The end of `Leave` after an evaluation: the top frame becomes what
      the evaluation left of it; on success the result is pushed, and for a
      built-in's node the frame is popped and its items go on top of the
      frame below. */
  function Close(s1: EvalState, eff: Builtins.Effect, closes: bool): (r: (EvalState, Outcome<Unit>))
    requires |s1.frames| > 0 && Valid(eff.env)
    ensures eff.result.Fail? ==> r.1 == Fail(eff.result.error)
    ensures r.0.isBinding == s1.isBinding && r.0.env == eff.env
    ensures eff.result.Ok? && !closes ==>
              r.1.Ok? && r.0.frames == s1.frames[..|s1.frames| - 1] + [eff.frame + [eff.result.value]]
    ensures eff.result.Ok? && closes && |s1.frames| == 1 ==> r.1.Fail? && r.1.error.Panic?
    ensures eff.result.Ok? && closes && |s1.frames| > 1 ==>
              r.1.Ok? && |r.0.frames| == |s1.frames| - 1
              && r.0.frames[..|r.0.frames| - 1] == s1.frames[..|s1.frames| - 2]
              && r.0.frames[|r.0.frames| - 1] == s1.frames[|s1.frames| - 2] + eff.frame + [eff.result.value]
  {
    var below := s1.frames[..|s1.frames| - 1];
    var s2 := EvalState(s1.isBinding, below + [eff.frame], eff.env);
    if eff.result.Fail? then (s2, Fail(eff.result.error))
    else
      var f3 := Push(eff.frame, eff.result.value);
      if !closes then (s2.(frames := below + [f3]), Ok(Unit))
      else if |below| == 0 then (s2.(frames := []), Fail(NilDereference))
      else
        var r := s2.(frames := below[..|below| - 1] + [Env.Append(below[|below| - 1], f3)]);
        assert below[|below| - 1] == s1.frames[|s1.frames| - 2];
        (r, Ok(Unit))
  }

  /** `FunctionEval.Evaluate`: a quoted expression is unwrapped (its first
      child; a panic when it has none) and walked by a fresh evaluator on
      the same environment; the result is that evaluator's result. */
  function EvalEval(fuel: nat, env: ValidEnv, f: Frame): (r: Builtins.Effect)
    requires |f| == 1 && f[0].SexpVal?
    ensures Valid(r.env) && r.frame == []
    decreases fuel, 1
  {
    var x := f[0].e;
    if x.kind == Registry.Symbol(Registry.QuoteFn) && |x.children| == 0 then
      Builtins.Effect([], env, Fail(Panic("index out of range [0] with length 0")))
    else
      var target := if x.kind == Registry.Symbol(Registry.QuoteFn) then x.children[0] else x;
      if fuel == 0 then Builtins.Effect([], env, Fail(OutOfFuel))
      else
        var (s, res) := Walk(EvalVisitor(fuel - 1), NewEvaluator(env), target);
        if res.Fail? then Builtins.Effect([], s.env, Fail(res.error))
        else Builtins.Effect([], s.env, Ok(Result(s)))
  }

  /** The evaluator as a visitor, with `eval` nested at most `fuel` deep. */
  function EvalVisitor(fuel: nat): Visitor<EvalState>
    decreases fuel, 6
  {
    Visitor(Before, Enter, (s: EvalState, e: Sexp) => Leave(fuel, s, e), After)
  }

  /** The walk of a whole expression by a fresh evaluator: the result and
      the environment afterwards. */
  function Run(fuel: nat, env: ValidEnv, e: Sexp): (r: (Outcome<Value>, ValidEnv))
  {
    var (s, res) := Walk(EvalVisitor(fuel), NewEvaluator(env), e);
    if res.Fail? then (Fail(res.error), s.env) else (Ok(Result(s)), s.env)
  }

  // ---------------------------------------------------------------------
  // The discipline of frames: every expression that evaluates adds at
  // least one item to the frame it was entered in, and leaves the frames
  // below alone.

  /** `g` is `f` with at least `n` more items on top. */
  predicate Extends(f: Frame, g: Frame, n: nat) {
    |g| >= |f| + n && g[..|f|] == f
  }

  /** The kinds that open a frame are exactly the labels of the built-ins
      in the initial registry. */
  lemma FunctionKinds(kind: string)
    ensures IsFunction(kind) <==> Registry.IsFunction(Registry.Builtins, kind)
    ensures IsFunction(kind) <==> kind in Registry.Symbols
  {
    Registry.BuiltinOfIsFind(kind);
    Registry.InitialRegistry();
  }

  /** Leaving a node whose kind is no built-in always fails: its kind is
      not evaluated, since only an identifier is redirected and identifiers
      are built-ins. */
  lemma LeaveOtherKind(fuel: nat, s: EvalState, e: Sexp)
    requires !IsFunction(e.kind)
    ensures Leave(fuel, s, e).1.Fail?
  {
  }


  /** Leaving a built-in's node that succeeds closes its frame: the items
      left in it and the result go on top of the frame below, in that
      order, and the frames further down are untouched. */
  lemma CloseFunction(s1: EvalState, eff: Builtins.Effect)
    requires |s1.frames| > 1 && Valid(eff.env)
    ensures var (t, res) := Close(s1, eff, true);
            res.Ok? ==> |t.frames| == |s1.frames| - 1
                        && t.frames[..|t.frames| - 1] == s1.frames[..|s1.frames| - 2]
                        && Extends(s1.frames[|s1.frames| - 2], t.frames[|t.frames| - 1], 1)
                        && t.frames[|t.frames| - 1][|t.frames[|t.frames| - 1]| - 1] == Result(t)
  {
  }

  lemma LeaveFunction(fuel: nat, s: EvalState, e: Sexp)
    requires |s.frames| > 1 && IsFunction(e.kind)
    ensures var (t, res) := Leave(fuel, s, e);
            res.Ok? ==> |t.frames| == |s.frames| - 1
                        && t.frames[..|t.frames| - 1] == s.frames[..|s.frames| - 2]
                        && Extends(s.frames[|s.frames| - 2], t.frames[|t.frames| - 1], 1)
                        && t.frames[|t.frames| - 1][|t.frames[|t.frames| - 1]| - 1] == Result(t)
  {
    var s1 := Prepare(s, e);
    var d := Dispatch(fuel, Redirect(s.isBinding, e.kind), s1.env, s1.frames[|s1.frames| - 1]);
    if d.Ok? {
      assert Leave(fuel, s, e) == Close(s1, d.value, true);
      CloseFunction(s1, d.value);
      assert s1.frames[..|s1.frames| - 2] == s.frames[..|s.frames| - 2];
      assert s1.frames[|s1.frames| - 2] == s.frames[|s.frames| - 2];
    } else {
      assert Leave(fuel, s, e).1.Fail?;
    }
  }

  /** What a successful `Leave` of a built-in's node does to the frames. */
  predicate Closes(s: EvalState, r: (EvalState, Outcome<Unit>))
    requires |s.frames| > 1
  {
    var (t, res) := r;
    res.Ok? ==> |t.frames| == |s.frames| - 1
                && t.frames[..|t.frames| - 1] == s.frames[..|s.frames| - 2]
                && Extends(s.frames[|s.frames| - 2], t.frames[|t.frames| - 1], 1)
  }

  /** What `Enter` does to the frames: a built-in's node opens one, and
      only a `quote` node keeps the walk from its children. */
  predicate Opens(s: EvalState, e: Sexp, r: (EvalState, Outcome<bool>)) {
    if IsFunction(e.kind) then
      |r.0.frames| == |s.frames| + 1 && r.0.frames[..|s.frames|] == s.frames
      && r.1 == Ok(e.kind != "quote")
    else r.0.frames == s.frames && r.1 == Ok(true)
  }

  lemma EnterOpens(s: EvalState, e: Sexp)
    ensures Opens(s, e, Enter(s, e))
  {
  }

  /** The evaluator's callbacks as the walk lemmas below use them. */
  ghost predicate Disciplined(v: Visitor<EvalState>) {
    (forall s: EvalState, e: Sexp :: Opens(s, e, v.enter(s, e)))
    && (forall s: EvalState, e: Sexp :: |s.frames| > 1 && IsFunction(e.kind) ==> Closes(s, v.leave(s, e)))
    && (forall s: EvalState, e: Sexp :: !IsFunction(e.kind) ==> v.leave(s, e).1.Fail?)
  }

  lemma EvalVisitorDisciplined(fuel: nat)
    ensures Disciplined(EvalVisitor(fuel))
  {
    var v := EvalVisitor(fuel);
    forall s: EvalState, e: Sexp ensures Opens(s, e, v.enter(s, e)) {
      EnterOpens(s, e);
    }
    forall s: EvalState, e: Sexp | |s.frames| > 1 && IsFunction(e.kind) ensures Closes(s, v.leave(s, e)) {
      LeaveFunction(fuel, s, e);
    }
    forall s: EvalState, e: Sexp | !IsFunction(e.kind) ensures v.leave(s, e).1.Fail? {
      LeaveOtherKind(fuel, s, e);
    }
  }

  /** A node that evaluates adds at least one item to the current frame. */
  lemma {:induction false} WalkNodeExtends(v: Visitor<EvalState>, s: EvalState, e: Sexp)
    requires Disciplined(v) && |s.frames| > 0
    ensures var (t, res) := WalkNode(v, s, e);
            res.Ok? ==> |t.frames| == |s.frames|
                        && t.frames[..|s.frames| - 1] == s.frames[..|s.frames| - 1]
                        && Extends(s.frames[|s.frames| - 1], t.frames[|t.frames| - 1], 1)
    decreases e, 1
  {
    var (s1, entered) := v.enter(s, e);
    assert Opens(s, e, v.enter(s, e));
    if !IsFunction(e.kind) {
      var (s2, res) := WalkChildren(v, s1, e.children);
      assert v.leave(s2, e).1.Fail?;
    } else if e.kind == "quote" {
      assert Closes(s1, v.leave(s1, e));
      assert s1.frames[..|s1.frames| - 1] == s.frames;
    } else {
      WalkChildrenExtend(v, s1, e.children);
      var (s2, res) := WalkChildren(v, s1, e.children);
      if res.Ok? {
        assert Closes(s2, v.leave(s2, e));
        assert s2.frames[..|s2.frames| - 1] == s.frames;
      }
    }
  }

  /** Each of the children that evaluate adds at least one item. */
  lemma {:induction false} WalkChildrenExtend(v: Visitor<EvalState>, s: EvalState, cs: seq<Sexp>)
    requires Disciplined(v) && |s.frames| > 0
    ensures var (t, res) := WalkChildren(v, s, cs);
            res.Ok? ==> |t.frames| == |s.frames|
                        && t.frames[..|s.frames| - 1] == s.frames[..|s.frames| - 1]
                        && Extends(s.frames[|s.frames| - 1], t.frames[|t.frames| - 1], |cs|)
    decreases cs, 0
  {
    if |cs| > 0 {
      WalkNodeExtends(v, s, cs[0]);
      var (s1, res) := WalkNode(v, s, cs[0]);
      if res.Ok? {
        WalkChildrenExtend(v, s1, cs[1..]);
        var (s2, res2) := WalkChildren(v, s1, cs[1..]);
        if res2.Ok? {
          var n := |s.frames| - 1;
          assert s2.frames[n][..|s1.frames[n]|] == s1.frames[n];
          assert s1.frames[n][..|s.frames[n]|] == s.frames[n];
          assert s2.frames[n][..|s.frames[n]|] == s.frames[n];
        }
      }
    }
  }

  /** A fresh evaluator that succeeds ends with its one frame holding at
      least one item, the result on top. */
  lemma RunLeavesOneFrame(fuel: nat, env: ValidEnv, e: Sexp)
    ensures var (t, res) := Walk(EvalVisitor(fuel), NewEvaluator(env), e);
            res.Ok? ==> |t.frames| == 1 && |t.frames[0]| >= 1 && Result(t) == t.frames[0][|t.frames[0]| - 1]
  {
    EvalVisitorDisciplined(fuel);
    WalkNodeExtends(EvalVisitor(fuel), NewEvaluator(env), e);
  }

  // ---------------------------------------------------------------------
  // Single steps.

  /** Entering sets the binding flag on a `def` and keeps it otherwise; a
      `quote` node's frame holds a deep copy of the node itself and its
      children are skipped. */
  lemma EnterState(s: EvalState, e: Sexp)
    ensures var (t, res) := Enter(s, e);
            t.isBinding == (s.isBinding || e.kind == "def") && t.env == s.env
            && (e.kind == "quote" ==> t.frames == s.frames + [[SexpVal(Sexpr.DeepCopy(e))]] && res == Ok(false))
  {
    if e.kind == "quote" {
      Registry.SymbolKind(Registry.QuoteFn);
      assert Enter(s, e) == (EvalState(s.isBinding, s.frames + [[SexpVal(Sexpr.DeepCopy(e))]], s.env), Ok(false));
    } else if IsFunction(e.kind) {
      assert Enter(s, e).0 == EvalState(s.isBinding || e.kind == "def", PushStackFrame(s.frames), s.env);
    }
  }

  /** The evaluator's callbacks are `Enter` and `Leave`. */
  lemma Callbacks(fuel: nat, s: EvalState, e: Sexp)
    ensures EvalVisitor(fuel).enter(s, e) == Enter(s, e)
    ensures EvalVisitor(fuel).leave(s, e) == Leave(fuel, s, e)
  {
  }

  /** Entering a built-in's node other than `def` and `quote` opens an
      empty frame and descends. */
  lemma EnterOpensFrame(s: EvalState, e: Sexp)
    requires IsFunction(e.kind) && e.kind != "quote" && e.kind != "def"
    ensures Enter(s, e) == (s.(frames := s.frames + [[]]), Ok(true))
  {
  }

  /** The state right after entering a built-in's node: a new empty frame. */
  function Opened(s: EvalState): EvalState {
    s.(frames := s.frames + [[]])
  }

  /** A leaf naming a built-in other than `quote` and `def` opens a frame
      and is closed at once. */
  lemma WalkBuiltinLeaf(fuel: nat, s: EvalState, e: Sexp)
    requires IsAtomic(e) && IsFunction(e.kind) && e.kind != "quote" && e.kind != "def"
    ensures WalkNode(EvalVisitor(fuel), s, e) == Leave(fuel, Opened(s), e)
  {
    EnterOpensFrame(s, e);
    Callbacks(fuel, s, e);
    Callbacks(fuel, Opened(s), e);
    WalkLeaf(EvalVisitor(fuel), s, e);
  }

  /** Leaving a `def` clears the binding flag, whatever the outcome;
      leaving any other node keeps it. */
  lemma LeaveState(fuel: nat, s: EvalState, e: Sexp)
    requires |s.frames| > 0
    ensures Leave(fuel, s, e).0.isBinding == (s.isBinding && e.kind != "def")
  {
    var s1 := Prepare(s, e);
    var d := Dispatch(fuel, Redirect(s.isBinding, e.kind), s1.env, s1.frames[|s1.frames| - 1]);
    if d.Ok? {
      assert Leave(fuel, s, e) == Close(s1, d.value, IsFunction(e.kind));
    }
  }

  /** `Dispatch` to a built-in other than `eval`, unfolded. */
  lemma DispatchTo(fuel: nat, kind: string, env: ValidEnv, f: Frame, b: Registry.Builtin)
    requires Registry.BuiltinOf(kind) == Some(b) && b != Registry.EvalFn
    ensures var v := Builtins.Validate(b, env, f);
            Dispatch(fuel, kind, env, f) == if v.Some? then Fail(v.value) else Ok(Builtins.Evaluate(b, env, f))
  {
    if Builtins.Validate(b, env, f).None? {
      assert Invoke(fuel, b, env, f) == Builtins.Evaluate(b, env, f);
    }
  }

  /** Validation comes first: when the built-in rejects the frame, `Leave`
      fails with that error, pushes no result and changes no binding. */
  lemma LeaveRejected(fuel: nat, s: EvalState, e: Sexp, b: Registry.Builtin, err: Error)
    requires |s.frames| > 0
    requires Registry.BuiltinOf(Redirect(s.isBinding, e.kind)) == Some(b)
    requires Builtins.Validate(b, s.env, Prepare(s, e).frames[|s.frames| - 1]) == Some(err)
    ensures var (t, res) := Leave(fuel, s, e);
            res == Fail(err) && t.frames == Prepare(s, e).frames && t.env == s.env
  {
    var s1 := Prepare(s, e);
    var top := s1.frames[|s1.frames| - 1];
    assert Checked(fuel, b, s1.env, top) == Fail(err);
    assert Dispatch(fuel, Redirect(s.isBinding, e.kind), s1.env, top) == Fail(err);
    LeaveDispatched(fuel, s, e, Fail(err));
  }

  /** Closing a built-in's node after a successful evaluation puts the
      evaluation's items and its result on the frame below. */
  lemma ClosePrepared(s: EvalState, e: Sexp, eff: Builtins.Effect)
    requires |s.frames| > 1 && Valid(eff.env) && eff.result.Ok?
    ensures var (t, res) := Close(Prepare(s, e), eff, true);
            res.Ok? && t.env == eff.env
            && t.frames == s.frames[..|s.frames| - 2] + [s.frames[|s.frames| - 2] + eff.frame + [eff.result.value]]
  {
    var s1 := Prepare(s, e);
    var t := Close(s1, eff, true).0;
    assert s1.frames[..|s1.frames| - 2] == s.frames[..|s.frames| - 2];
    assert s1.frames[|s1.frames| - 2] == s.frames[|s.frames| - 2];
    SplitLast(t.frames);
  }

  lemma SplitLast<T>(xs: seq<T>)
    requires |xs| > 0
    ensures xs == xs[..|xs| - 1] + [xs[|xs| - 1]]
  {
  }

  /** `Leave` once the outcome of `evaluate` on the prepared top frame is
      known. */
  lemma LeaveDispatched(fuel: nat, s: EvalState, e: Sexp, d: Outcome<Builtins.Effect>)
    requires |s.frames| > 0
    requires Dispatch(fuel, Redirect(s.isBinding, e.kind), s.env, Prepare(s, e).frames[|s.frames| - 1]) == d
    ensures d.Fail? ==> Leave(fuel, s, e) == (Prepare(s, e), Fail(d.error))
    ensures d.Ok? ==> Valid(d.value.env) && Leave(fuel, s, e) == Close(Prepare(s, e), d.value, IsFunction(e.kind))
  {
  }

  /** Otherwise the built-in is evaluated: its error ends `Leave`, and on
      success exactly one result goes on the frame below, after the items
      the evaluation left. */
  lemma LeaveEvaluates(fuel: nat, s: EvalState, e: Sexp, b: Registry.Builtin)
    requires |s.frames| > 1 && IsFunction(e.kind)
    requires Registry.BuiltinOf(Redirect(s.isBinding, e.kind)) == Some(b) && b != Registry.EvalFn
    requires Builtins.Validate(b, s.env, Prepare(s, e).frames[|s.frames| - 1]).None?
    ensures var eff := Builtins.Evaluate(b, s.env, Prepare(s, e).frames[|s.frames| - 1]);
            var (t, res) := Leave(fuel, s, e);
            t.env == eff.env
            && (eff.result.Fail? ==> res == Fail(eff.result.error))
            && (eff.result.Ok? ==>
                  res.Ok? && t.frames == s.frames[..|s.frames| - 2] + [s.frames[|s.frames| - 2] + eff.frame + [eff.result.value]])
  {
    var s1 := Prepare(s, e);
    var top := s1.frames[|s1.frames| - 1];
    DispatchTo(fuel, Redirect(s.isBinding, e.kind), s1.env, top, b);
    var eff := Builtins.Evaluate(b, s1.env, top);
    LeaveDispatched(fuel, s, e, Ok(eff));
    if eff.result.Ok? {
      ClosePrepared(s, e, eff);
    }
  }

  /** An identifier outside a `def` is resolved: leaving it yields the
      value bound to its name, and fails when the name is unbound. */
  lemma LeaveIdentifierResolves(fuel: nat, s: EvalState, e: Sexp)
    requires |s.frames| > 1 && s.frames[|s.frames| - 1] == [] && !s.isBinding
    requires e.kind == "identifier" && IsAtomic(e) && e.value != ""
    ensures var (t, res) := Leave(fuel, s, e);
            t.env == s.env && (res.Ok? <==> e.value in Names(s.env))
            && (res.Ok? ==> t.frames == s.frames[..|s.frames| - 2] + [s.frames[|s.frames| - 2] + [Get(s.env, e.value).value]])
  {
    var top := Prepare(s, e).frames[|s.frames| - 1];
    assert top == [CharSeq(e.value)];
    Registry.SymbolKind(Registry.Resolve);
    if e.value in Names(s.env) {
      LeaveEvaluates(fuel, s, e, Registry.Resolve);
    } else {
      LeaveRejected(fuel, s, e, Registry.Resolve, Builtins.Validate(Registry.Resolve, s.env, top).value);
    }
  }

  /** Inside a `def` an identifier is not resolved: leaving it yields the
      symbol of its name. */
  lemma LeaveIdentifierInDef(fuel: nat, s: EvalState, e: Sexp)
    requires |s.frames| > 1 && s.frames[|s.frames| - 1] == [] && s.isBinding
    requires e.kind == "identifier" && IsAtomic(e) && e.value != ""
    ensures var (t, res) := Leave(fuel, s, e);
            res.Ok? && t.env == s.env
            && t.frames == s.frames[..|s.frames| - 2] + [s.frames[|s.frames| - 2] + [Symbol(e.value)]]
  {
    assert Prepare(s, e).frames[|s.frames| - 1] == [CharSeq(e.value)];
    Registry.SymbolKind(Registry.IdentifierFn);
    LeaveEvaluates(fuel, s, e, Registry.IdentifierFn);
  }

  /** A string literal evaluates to a string of its text. */
  lemma LeaveString(fuel: nat, s: EvalState, e: Sexp)
    requires |s.frames| > 1 && s.frames[|s.frames| - 1] == []
    requires e.kind == "string" && IsAtomic(e) && e.value != ""
    ensures var (t, res) := Leave(fuel, s, e);
            res.Ok? && t.env == s.env
            && t.frames == s.frames[..|s.frames| - 2] + [s.frames[|s.frames| - 2] + [Str(e.value)]]
  {
    assert Prepare(s, e).frames[|s.frames| - 1] == [CharSeq(e.value)];
    Registry.SymbolKind(Registry.StringFn);
    LeaveEvaluates(fuel, s, e, Registry.StringFn);
  }

  /** A keyword literal evaluates to a keyword of its text, ':' included. */
  lemma LeaveKeyword(fuel: nat, s: EvalState, e: Sexp)
    requires |s.frames| > 1 && s.frames[|s.frames| - 1] == []
    requires e.kind == "keyword" && IsAtomic(e) && e.value != ""
    ensures var (t, res) := Leave(fuel, s, e);
            res.Ok? && t.env == s.env
            && t.frames == s.frames[..|s.frames| - 2] + [s.frames[|s.frames| - 2] + [Keyword(e.value)]]
  {
    assert Prepare(s, e).frames[|s.frames| - 1] == [CharSeq(e.value)];
    Registry.SymbolKind(Registry.KeywordFn);
    LeaveEvaluates(fuel, s, e, Registry.KeywordFn);
  }

  // ---------------------------------------------------------------------
  // eval.

  /** The expression `eval` walks: the child of a quote, or the captured
      expression itself. */
  function Target(x: Sexp): Sexp
    requires x.kind == "quote" ==> |x.children| > 0
  {
    if x.kind == "quote" then x.children[0] else x
  }

  /** `eval` of a captured expression is a fresh evaluator's walk over its
      target, with one level less of nesting, on the same environment. */
  lemma EvalIsRun(fuel: nat, env: ValidEnv, x: Sexp)
    requires x.kind == "quote" ==> |x.children| > 0
    ensures var r := EvalEval(fuel + 1, env, [SexpVal(x)]);
            r.result == Run(fuel, env, Target(x)).0 && r.env == Run(fuel, env, Target(x)).1
  {
  }

  /** `eval` of an empty quote panics as the Go code indexes its missing
      first child; nothing is walked. */
  lemma EvalEmptyQuote(fuel: nat, env: ValidEnv, x: Sexp)
    requires x.kind == "quote" && |x.children| == 0
    ensures var r := EvalEval(fuel, env, [SexpVal(x)]);
            r.result.Fail? && r.result.error.Panic? && r.env == env
  {
  }

  /** Leaving an `eval` node whose frame holds one captured expression hands
      the result of `eval` to the frame below. */
  lemma LeaveEval(fuel: nat, s: EvalState, e: Sexp, x: Sexp)
    requires |s.frames| > 1 && s.frames[|s.frames| - 1] == [SexpVal(x)]
    requires e.kind == "eval" && !IsAtomic(e)
    ensures var r := EvalEval(fuel, s.env, [SexpVal(x)]);
            var (t, res) := Leave(fuel, s, e);
            t.env == r.env
            && (r.result.Fail? ==> res == Fail(r.result.error))
            && (r.result.Ok? ==>
                  res.Ok? && t.frames == s.frames[..|s.frames| - 2] + [s.frames[|s.frames| - 2] + [r.result.value]])
  {
    var s1 := Prepare(s, e);
    var top := s1.frames[|s1.frames| - 1];
    assert top == [SexpVal(x)];
    Registry.SymbolKind(Registry.EvalFn);
    var eff := EvalEval(fuel, s.env, top);
    assert Invoke(fuel, Registry.EvalFn, s1.env, top) == eff;
    assert Checked(fuel, Registry.EvalFn, s1.env, top) == Ok(eff);
    assert Dispatch(fuel, "eval", s1.env, top) == Ok(eff);
    LeaveDispatched(fuel, s, e, Ok(eff));
    if eff.result.Ok? {
      ClosePrepared(s, e, eff);
    }
  }

  // ---------------------------------------------------------------------
  // An expression that evaluates itself: after `(def x (quote (eval x)))`,
  // `(eval x)` evaluates `(eval x)` again, without end.

  const RefX: Sexp := Sexp("identifier", [], "x")

  const EvalX: Sexp := Sexp("eval", [RefX], "")

  const QuotedEvalX: Sexp := Sexp("quote", [EvalX], "")

  /** Walking `(eval x)` with `x` bound to `(quote (eval x))` reaches the
      leaving of the `eval` node with the captured expression as its only
      argument. */
  lemma SelfEvaluationArgument(fuel: nat, env: ValidEnv)
    requires Get(env, "x") == Some(SexpVal(QuotedEvalX))
    ensures WalkNode(EvalVisitor(fuel), NewEvaluator(env), EvalX)
            == Leave(fuel, EvalState(false, [[], [SexpVal(QuotedEvalX)]], env), EvalX)
  {
    var v := EvalVisitor(fuel);
    var s0 := NewEvaluator(env);
    Registry.SymbolKind(Registry.EvalFn);
    EnterOpensFrame(s0, EvalX);
    Callbacks(fuel, s0, EvalX);
    assert s0.frames + [[]] == [[], []];
    assert v.enter(s0, EvalX) == (EvalState(false, [[], []], env), Ok(true));
    ResolveX(fuel, env);
    WalkOnlyChild(v, s0, EvalX);
    Callbacks(fuel, EvalState(false, [[], [SexpVal(QuotedEvalX)]], env), EvalX);
  }

  /** The `x` inside `(eval x)` resolves to the captured expression. */
  lemma ResolveX(fuel: nat, env: ValidEnv)
    requires Get(env, "x") == Some(SexpVal(QuotedEvalX))
    ensures WalkNode(EvalVisitor(fuel), EvalState(false, [[], []], env), RefX)
            == (EvalState(false, [[], [SexpVal(QuotedEvalX)]], env), Ok(Unit))
  {
    Registry.SymbolKind(Registry.IdentifierFn);
    var s1 := EvalState(false, [[], []], env);
    var s2 := EvalState(false, [[], [], []], env);
    WalkBuiltinLeaf(fuel, s1, RefX);
    assert Opened(s1) == s2;
    assert "x" in Names(env);
    LeaveIdentifierResolves(fuel, s2, RefX);
    assert s2.frames[..1] + [s2.frames[1] + [SexpVal(QuotedEvalX)]] == [[], [SexpVal(QuotedEvalX)]];
  }

  /** Walking `(eval x)` with `x` bound to `(quote (eval x))` nests `eval`
      until the nesting bound is exhausted, whatever the bound. In Go each
      nested `eval` walks with a fresh evaluator, so this is recursion
      without end, which the Go runtime aborts with a fatal stack overflow.
      The bindings are left as they were. */
  lemma {:induction false} SelfEvaluationDiverges(fuel: nat, env: ValidEnv)
    requires Get(env, "x") == Some(SexpVal(QuotedEvalX))
    ensures var (t, res) := Walk(EvalVisitor(fuel), NewEvaluator(env), EvalX);
            res == Fail(OutOfFuel) && t.env == env
    decreases fuel
  {
    if fuel > 0 {
      SelfEvaluationDiverges(fuel - 1, env);
    }
    EvalQuotedEvalX(fuel, env);
    WalkIsWalkNode(fuel, NewEvaluator(env), EvalX);
    SelfEvaluationArgument(fuel, env);
    LeaveEval(fuel, EvalState(false, [[], [SexpVal(QuotedEvalX)]], env), EvalX, QuotedEvalX);
  }

  /** `eval` of `(quote (eval x))` runs out of nesting when the walk of
      `(eval x)` one level down does. */
  lemma EvalQuotedEvalX(fuel: nat, env: ValidEnv)
    requires fuel > 0 ==> var (t, res) := Walk(EvalVisitor(fuel - 1), NewEvaluator(env), EvalX);
                          res == Fail(OutOfFuel) && t.env == env
    ensures var r := EvalEval(fuel, env, [SexpVal(QuotedEvalX)]);
            r.result == Fail(OutOfFuel) && r.env == env
  {
    Registry.SymbolKind(Registry.QuoteFn);
    if fuel > 0 {
      var (t, res) := Walk(EvalVisitor(fuel - 1), NewEvaluator(env), EvalX);
      assert EvalEval(fuel, env, [SexpVal(QuotedEvalX)]) == Builtins.Effect([], t.env, Fail(res.error));
    }
  }

  /** The evaluator's `Before` and `After` change nothing. */
  lemma WalkIsWalkNode(fuel: nat, s: EvalState, e: Sexp)
    ensures Walk(EvalVisitor(fuel), s, e) == WalkNode(EvalVisitor(fuel), s, e)
  {
  }

  // ---------------------------------------------------------------------
  // The program root.

  /** An empty program fails: `root` rejects an empty frame. */
  lemma EmptyRootFails(fuel: nat, env: ValidEnv)
    ensures Run(fuel, env, NewSexpression("root", [])) == (Fail(Errors.WrongNumberOfArgs("root", 0, 1)), env)
  {
    var e := NewSexpression("root", []);
    WalkIsWalkNode(fuel, NewEvaluator(env), e);
    EmptyRootWalk(fuel, env);
  }

  lemma EmptyRootWalk(fuel: nat, env: ValidEnv)
    ensures var (t, res) := WalkNode(EvalVisitor(fuel), NewEvaluator(env), NewSexpression("root", []));
            res == Fail(Errors.WrongNumberOfArgs("root", 0, 1)) && t.env == env
  {
    var e := NewSexpression("root", []);
    var s0 := NewEvaluator(env);
    var s1 := EvalState(false, [[], []], env);
    Registry.SymbolKind(Registry.Root);
    WalkBuiltinLeaf(fuel, s0, e);
    assert Opened(s0) == s1;
    assert Prepare(s1, e) == s1;
    LeaveRejected(fuel, s1, e, Registry.Root, Errors.WrongNumberOfArgs("root", 0, 1));
  }
}
