/** Whole programs run by the evaluator, stated over the trees the parser
    builds for them: the script of eval/run_test.go, the two programs of
    eval/quote_test.go, and small definitions and look-ups. */
module Programs {

  import opened Outcomes
  import opened Values
  import opened Env
  import opened Sexpr
  import opened Walker
  import opened Evaluator
  import Registry
  import Builtins
  import Text

  /** The state with `v` pushed on its current frame. */
  function Pushed(s: EvalState, v: Value): (r: EvalState)
    requires |s.frames| > 0
  {
    s.(frames := s.frames[..|s.frames| - 1] + [s.frames[|s.frames| - 1] + [v]])
  }

  /** A state whose top frame was opened over `s` and then closed with
      `w` pushed below it is `s` with `w` pushed. */
  lemma ClosedOverOpened(s: EvalState, t: EvalState, w: Value)
    requires |s.frames| > 0 && t.env == s.env && t.isBinding == s.isBinding
    requires var o := Opened(s).frames; t.frames == o[..|o| - 2] + [o[|o| - 2] + [w]]
    ensures t == Pushed(s, w)
  {
    var o := Opened(s).frames;
    assert o[..|o| - 2] == s.frames[..|s.frames| - 1];
    assert o[|o| - 2] == s.frames[|s.frames| - 1];
  }

  /** Closing a string literal's frame pushes its string below. */
  lemma StringCloses(fuel: nat, s: EvalState, e: Sexp)
    requires |s.frames| > 0 && e.kind == "string" && IsAtomic(e) && e.value != ""
    ensures Leave(fuel, Opened(s), e) == (Pushed(s, Str(e.value)), Ok(Unit))
  {
    LeaveString(fuel, Opened(s), e);
    LeaveState(fuel, Opened(s), e);
    ClosedOverOpened(s, Leave(fuel, Opened(s), e).0, Str(e.value));
  }

  /** A string literal, walked, pushes its string on the current frame. */
  lemma WalkString(fuel: nat, s: EvalState, e: Sexp)
    requires |s.frames| > 0 && e.kind == "string" && IsAtomic(e) && e.value != ""
    ensures WalkNode(EvalVisitor(fuel), s, e) == (Pushed(s, Str(e.value)), Ok(Unit))
  {
    Registry.SymbolKind(Registry.StringFn);
    WalkBuiltinLeaf(fuel, s, e);
    StringCloses(fuel, s, e);
  }

  /** Closing a bound identifier's frame pushes its value below. */
  lemma BoundCloses(fuel: nat, s: EvalState, e: Sexp)
    requires |s.frames| > 0 && !s.isBinding && e.kind == "identifier" && IsAtomic(e) && e.value != ""
    requires e.value in Names(s.env)
    ensures Leave(fuel, Opened(s), e) == (Pushed(s, Get(s.env, e.value).value), Ok(Unit))
  {
    LeaveIdentifierResolves(fuel, Opened(s), e);
    LeaveState(fuel, Opened(s), e);
    ClosedOverOpened(s, Leave(fuel, Opened(s), e).0, Get(s.env, e.value).value);
  }

  /** An identifier outside a `def`, walked, pushes the value bound to its
      name, and fails exactly when the name is unbound. */
  lemma WalkIdentifier(fuel: nat, s: EvalState, e: Sexp)
    requires |s.frames| > 0 && !s.isBinding && e.kind == "identifier" && IsAtomic(e) && e.value != ""
    ensures var (t, res) := WalkNode(EvalVisitor(fuel), s, e);
            t.env == s.env && (res.Ok? <==> e.value in Names(s.env))
            && (res.Ok? ==> (t, res) == (Pushed(s, Get(s.env, e.value).value), Ok(Unit)))
  {
    Registry.SymbolKind(Registry.IdentifierFn);
    WalkBuiltinLeaf(fuel, s, e);
    if e.value in Names(s.env) {
      BoundCloses(fuel, s, e);
    } else {
      LeaveIdentifierResolves(fuel, Opened(s), e);
    }
  }

  /** Closing an identifier's frame inside a `def` pushes its name below,
      as a symbol. */
  lemma NameCloses(fuel: nat, s: EvalState, e: Sexp)
    requires |s.frames| > 0 && s.isBinding && e.kind == "identifier" && IsAtomic(e) && e.value != ""
    ensures Leave(fuel, Opened(s), e) == (Pushed(s, Symbol(e.value)), Ok(Unit))
  {
    LeaveIdentifierInDef(fuel, Opened(s), e);
    LeaveState(fuel, Opened(s), e);
    ClosedOverOpened(s, Leave(fuel, Opened(s), e).0, Symbol(e.value));
  }

  /** An identifier inside a `def`, walked, pushes its name as a symbol. */
  lemma WalkIdentifierInDef(fuel: nat, s: EvalState, e: Sexp)
    requires |s.frames| > 0 && s.isBinding && e.kind == "identifier" && IsAtomic(e) && e.value != ""
    ensures WalkNode(EvalVisitor(fuel), s, e) == (Pushed(s, Symbol(e.value)), Ok(Unit))
  {
    Registry.SymbolKind(Registry.IdentifierFn);
    WalkBuiltinLeaf(fuel, s, e);
    NameCloses(fuel, s, e);
  }

  /** `(concat "a" "b")`. */
  const ConcatAB: Sexp := NewSexpression("concat", [NewAtomic("string", "a"), NewAtomic("string", "b")])

  /** Pushing onto a frame just opened over `s` extends that frame only. */
  lemma PushOnOpened(s: EvalState, xs: seq<Value>, v: Value)
    ensures Pushed(s.(frames := s.frames + [xs]), v) == s.(frames := s.frames + [xs + [v]])
  {
    var fs := s.frames + [xs];
    assert fs[..|fs| - 1] == s.frames;
    assert fs[|fs| - 1] == xs;
  }

  /** The arguments of `(concat "a" "b")` fill its frame with two strings. */
  lemma ConcatArguments(fuel: nat, s: EvalState)
    requires |s.frames| > 0
    ensures WalkChildren(EvalVisitor(fuel), Opened(s), ConcatAB.children)
            == (s.(frames := s.frames + [[Str("a"), Str("b")]]), Ok(Unit))
  {
    var s1 := Opened(s);
    var a, b := NewAtomic("string", "a"), NewAtomic("string", "b");
    assert ConcatAB.children == [a, b];
    WalkTwoChildren(EvalVisitor(fuel), s1, a, b);
    WalkString(fuel, s1, a);
    PushOnOpened(s, [], Str("a"));
    assert [] + [Str("a")] == [Str("a")];
    var s2 := s.(frames := s.frames + [[Str("a")]]);
    assert WalkNode(EvalVisitor(fuel), s1, a) == (s2, Ok(Unit));
    WalkString(fuel, s2, b);
    PushOnOpened(s, [Str("a")], Str("b"));
    assert [Str("a")] + [Str("b")] == [Str("a"), Str("b")];
    assert WalkNode(EvalVisitor(fuel), s2, b) == (s.(frames := s.frames + [[Str("a"), Str("b")]]), Ok(Unit));
  }

  /** A form naming a built-in other than `quote` and `def` opens a frame,
      walks its arguments into it and is closed unless an argument failed. */
  lemma WalkBuiltinForm(fuel: nat, s: EvalState, e: Sexp)
    requires IsFunction(e.kind) && e.kind != "quote" && e.kind != "def"
    ensures var (s2, res) := WalkChildren(EvalVisitor(fuel), Opened(s), e.children);
            WalkNode(EvalVisitor(fuel), s, e) == if res.Fail? then (s2, res) else Leave(fuel, s2, e)
  {
    var (s2, res) := WalkChildren(EvalVisitor(fuel), Opened(s), e.children);
    EnterOpensFrame(s, e);
    Callbacks(fuel, s, e);
    Callbacks(fuel, s2, e);
    WalkEntered(EvalVisitor(fuel), s, e);
  }

  /** Closing `(concat "a" "b")` over its two strings pushes "ab". */
  lemma LeaveConcatAB(fuel: nat, s: EvalState)
    requires |s.frames| > 0
    ensures Leave(fuel, s.(frames := s.frames + [[Str("a"), Str("b")]]), ConcatAB) == (Pushed(s, Str("ab")), Ok(Unit))
  {
    Registry.SymbolKind(Registry.Concat);
    ConcatABEffect(s.env);
    LeaveForm(fuel, s, [Str("a"), Str("b")], ConcatAB, Registry.Concat, Str("ab"));
  }

  /** Closing a form other than `def` and `eval`, over a frame its
      built-in turns into one value and nothing else, pushes that value. */
  lemma LeaveForm(fuel: nat, s: EvalState, f: Frame, e: Sexp, b: Registry.Builtin, w: Value)
    requires |s.frames| > 0 && !IsAtomic(e) && e.kind != "def" && e.kind != "identifier"
    requires Registry.BuiltinOf(e.kind) == Some(b) && b != Registry.EvalFn
    requires Builtins.Validate(b, s.env, f).None? && Builtins.Evaluate(b, s.env, f) == Builtins.Effect([], s.env, Ok(w))
    ensures Leave(fuel, s.(frames := s.frames + [f]), e) == (Pushed(s, w), Ok(Unit))
  {
    var s3 := s.(frames := s.frames + [f]);
    assert Prepare(s3, e) == s3;
    LeaveEvaluates(fuel, s3, e, b);
    LeaveState(fuel, s3, e);
    ClosedOnTop(s, f, w);
    assert Leave(fuel, s3, e).1.value == Unit;
  }

  /** A frame `f` opened over `s` and closed with nothing left of it but
      the result `w` is `s` with `w` pushed. */
  lemma ClosedOnTop(s: EvalState, f: Frame, w: Value)
    requires |s.frames| > 0
    ensures var o := s.frames + [f];
            o[..|o| - 2] + [o[|o| - 2] + [] + [w]] == Pushed(s, w).frames
  {
    var o := s.frames + [f];
    assert o[..|o| - 2] == s.frames[..|s.frames| - 1];
    assert o[|o| - 2] == s.frames[|s.frames| - 1];
    assert o[|o| - 2] + [] + [w] == s.frames[|s.frames| - 1] + [w];
  }

  /** `concat` accepts the two strings and joins them. */
  lemma ConcatABEffect(env: ValidEnv)
    ensures Builtins.Validate(Registry.Concat, env, [Str("a"), Str("b")]).None?
    ensures Builtins.Evaluate(Registry.Concat, env, [Str("a"), Str("b")]) == Builtins.Effect([], env, Ok(Str("ab")))
  {
    var f := [Str("a"), Str("b")];
    assert Builtins.ValidateConcat(f).None?;
    Builtins.ConcatResult(env, f);
    assert Builtins.Texts(f) == "ab";
  }

  /** `(concat "a" "b")` evaluates to "ab", in any state with a frame. */
  lemma WalkConcatAB(fuel: nat, s: EvalState)
    requires |s.frames| > 0
    ensures WalkNode(EvalVisitor(fuel), s, ConcatAB) == (Pushed(s, Str("ab")), Ok(Unit))
  {
    Registry.SymbolKind(Registry.Concat);
    WalkBuiltinForm(fuel, s, ConcatAB);
    ConcatArguments(fuel, s);
    LeaveConcatAB(fuel, s);
  }

  /** Closing a program's root over one value yields that value. */
  lemma LeaveRoot(fuel: nat, x: Sexp, w: Value, env: ValidEnv)
    ensures Leave(fuel, EvalState(false, [[], [w]], env), NewSexpression("root", [x])) == (EvalState(false, [[w]], env), Ok(Unit))
  {
    var root := NewSexpression("root", [x]);
    var s := EvalState(false, [[]], env);
    Registry.SymbolKind(Registry.Root);
    RootEffect(env, w);
    LeaveForm(fuel, s, [w], root, Registry.Root, w);
    assert s.(frames := s.frames + [[w]]) == EvalState(false, [[], [w]], env);
    assert Pushed(s, w) == EvalState(false, [[w]], env);
  }

  /** `root` accepts one value and yields it. */
  lemma RootEffect(env: ValidEnv, w: Value)
    ensures Builtins.Validate(Registry.Root, env, [w]).None?
    ensures Builtins.Evaluate(Registry.Root, env, [w]) == Builtins.Effect([], env, Ok(w))
  {
  }

  /** Entering a program's root opens a frame. */
  lemma EnterRoot(s: EvalState, x: Sexp)
    ensures Enter(s, NewSexpression("root", [x])) == (Opened(s), Ok(true))
  {
    Registry.SymbolKind(Registry.Root);
    EnterOpensFrame(s, NewSexpression("root", [x]));
  }

  /** Pushing onto the frame a program's root opened. */
  lemma PushedInRoot(env: ValidEnv, w: Value)
    ensures Pushed(Opened(NewEvaluator(env)), w) == EvalState(false, [[], [w]], env)
  {
    var s1 := Opened(NewEvaluator(env));
    assert s1.frames == [[], []];
    assert s1.frames[..1] == [[]] && s1.frames[1] == [];
    assert [] + [w] == [w];
    assert [[]] + [[w]] == [[], [w]];
  }

  /** In a program's root, `(concat "a" "b")` leaves "ab" as its value. */
  lemma ConcatABInRoot(fuel: nat, env: ValidEnv)
    ensures WalkNode(EvalVisitor(fuel), Opened(NewEvaluator(env)), ConcatAB) == (EvalState(false, [[], [Str("ab")]], env), Ok(Unit))
  {
    WalkConcatAB(fuel, Opened(NewEvaluator(env)));
    PushedInRoot(env, Str("ab"));
  }

  /** The program `(concat "a" "b")` evaluates to "ab" and binds nothing. */
  lemma RunConcatAB(fuel: nat, env: ValidEnv)
    ensures Run(fuel, env, NewSexpression("root", [ConcatAB])) == (Ok(Str("ab")), env)
  {
    var root := NewSexpression("root", [ConcatAB]);
    var s0 := NewEvaluator(env);
    ConcatABInRoot(fuel, env);
    EnterRoot(s0, ConcatAB);
    Callbacks(fuel, s0, root);
    WalkOnlyChild(EvalVisitor(fuel), s0, root);
    Callbacks(fuel, EvalState(false, [[], [Str("ab")]], env), root);
    LeaveRoot(fuel, ConcatAB, Str("ab"), env);
  }

  // ---------------------------------------------------------------------
  // `(def x "a")`, then `x`: bindings outlive the program that made them.

  /** `(def n "t")`. */
  function DefForm(n: string, t: string): Sexp {
    NewSexpression("def", [NewAtomic("identifier", n), NewAtomic("string", t)])
  }

  /** The row `(def n "t")` reports. */
  function DefRowOf(n: string, t: string): Value {
    Builtins.DefRow(Symbol(n), Types.TypeString.name, Str(t))
  }

  /** `(def x "a")`. */
  const DefXA: Sexp := DefForm("x", "a")

  /** The row `(def x "a")` reports. */
  const DefXARow: Value := DefRowOf("x", "a")

  /** The arguments of `(def n "t")`, walked while binding, fill its frame
      with the name, as a symbol, and the value. */
  lemma DefArguments(fuel: nat, s: EvalState, n: string, t: string)
    requires |s.frames| > 0 && s.isBinding && n != "" && t != ""
    ensures WalkChildren(EvalVisitor(fuel), Opened(s), DefForm(n, t).children)
            == (s.(frames := s.frames + [[Symbol(n), Str(t)]]), Ok(Unit))
  {
    var s1 := Opened(s);
    var a, b := NewAtomic("identifier", n), NewAtomic("string", t);
    assert DefForm(n, t).children == [a, b];
    WalkTwoChildren(EvalVisitor(fuel), s1, a, b);
    WalkIdentifierInDef(fuel, s1, a);
    PushOnOpened(s, [], Symbol(n));
    assert [] + [Symbol(n)] == [Symbol(n)];
    var s2 := s.(frames := s.frames + [[Symbol(n)]]);
    assert WalkNode(EvalVisitor(fuel), s1, a) == (s2, Ok(Unit));
    WalkString(fuel, s2, b);
    PushOnOpened(s, [Symbol(n)], Str(t));
    assert [Symbol(n)] + [Str(t)] == [Symbol(n), Str(t)];
  }

  /** `def` accepts the name and the value, binds the one to the other and
      reports the row. */
  lemma DefEffect(env: ValidEnv, n: string, t: string)
    ensures Builtins.Validate(Registry.Def, env, [Symbol(n), Str(t)]).None?
    ensures Builtins.Evaluate(Registry.Def, env, [Symbol(n), Str(t)])
            == Builtins.Effect([], Bind(env, n, Str(t)), Ok(DefRowOf(n, t)))
  {
    var f := [Symbol(n), Str(t)];
    assert TypeOf(Str(t)) == Ok(Types.TypeString);
    assert Builtins.EvalDef(env, f) == Builtins.Effect([], Bind(env, n, Str(t)), Ok(DefRowOf(n, t)));
  }

  /** Closing `(def n "t")` binds `n` to "t", reports the row and ends
      binding. */
  lemma LeaveDef(fuel: nat, s: EvalState, n: string, t: string)
    requires |s.frames| > 0 && !s.isBinding
    ensures Leave(fuel, EvalState(true, s.frames + [[Symbol(n), Str(t)]], s.env), DefForm(n, t))
            == (EvalState(false, Pushed(s, DefRowOf(n, t)).frames, Bind(s.env, n, Str(t))), Ok(Unit))
  {
    var f := [Symbol(n), Str(t)];
    var e := DefForm(n, t);
    var s3 := EvalState(true, s.frames + [f], s.env);
    Registry.SymbolKind(Registry.Def);
    assert Prepare(s3, e).frames == s3.frames;
    DefEffect(s.env, n, t);
    LeaveEvaluates(fuel, s3, e, Registry.Def);
    LeaveState(fuel, s3, e);
    ClosedOnTop(s, f, DefRowOf(n, t));
    assert Leave(fuel, s3, e).1.value == Unit;
  }

  /** `(def n "t")`, walked, binds `n` to "t", pushes the row it reports and
      leaves every other binding as it was. */
  lemma WalkDef(fuel: nat, s: EvalState, n: string, t: string)
    requires |s.frames| > 0 && !s.isBinding && n != "" && t != ""
    ensures WalkNode(EvalVisitor(fuel), s, DefForm(n, t))
            == (EvalState(false, Pushed(s, DefRowOf(n, t)).frames, Bind(s.env, n, Str(t))), Ok(Unit))
  {
    var v := EvalVisitor(fuel);
    var e := DefForm(n, t);
    var sb := EvalState(true, s.frames, s.env);
    Registry.SymbolKind(Registry.Def);
    Callbacks(fuel, s, e);
    assert v.enter(s, e) == (Opened(sb), Ok(true));
    DefArguments(fuel, sb, n, t);
    WalkEntered(v, s, e);
    Callbacks(fuel, EvalState(true, s.frames + [[Symbol(n), Str(t)]], s.env), e);
    LeaveDef(fuel, s, n, t);
  }

  /** The program `(def x "a")` reports the binding's row and leaves "x"
      bound to "a", every other name as it was. */
  lemma RunDefXA(fuel: nat, env: ValidEnv)
    ensures Run(fuel, env, NewSexpression("root", [DefXA])) == (Ok(DefXARow), Bind(env, "x", Str("a")))
  {
    var root := NewSexpression("root", [DefXA]);
    var s0 := NewEvaluator(env);
    DefXAInRoot(fuel, env);
    EnterRoot(s0, DefXA);
    Callbacks(fuel, s0, root);
    WalkOnlyChild(EvalVisitor(fuel), s0, root);
    Callbacks(fuel, EvalState(false, [[], [DefXARow]], Bind(env, "x", Str("a"))), root);
    LeaveRoot(fuel, DefXA, DefXARow, Bind(env, "x", Str("a")));
  }

  /** In a program's root, `(def x "a")` leaves its row as its value. */
  lemma DefXAInRoot(fuel: nat, env: ValidEnv)
    ensures WalkNode(EvalVisitor(fuel), Opened(NewEvaluator(env)), DefXA)
            == (EvalState(false, [[], [DefXARow]], Bind(env, "x", Str("a"))), Ok(Unit))
  {
    WalkDef(fuel, Opened(NewEvaluator(env)), "x", "a");
    PushedInRoot(env, DefXARow);
  }

  /** The program `x` evaluates to the value bound to "x" and fails when
      nothing is; either way the bindings are unchanged. */
  lemma RunRefX(fuel: nat, env: ValidEnv)
    ensures var (r, env2) := Run(fuel, env, NewSexpression("root", [RefX]));
            env2 == env && (r.Ok? <==> "x" in Names(env))
            && (r.Ok? ==> r.value == Get(env, "x").value)
  {
    if "x" in Names(env) {
      RunBoundX(fuel, env);
    } else {
      RunUnboundX(fuel, env);
    }
  }

  /** In a program's root, a bound `x` leaves its value. */
  lemma BoundXInRoot(fuel: nat, env: ValidEnv)
    requires "x" in Names(env)
    ensures WalkNode(EvalVisitor(fuel), Opened(NewEvaluator(env)), RefX)
            == (EvalState(false, [[], [Get(env, "x").value]], env), Ok(Unit))
  {
    var s1 := Opened(NewEvaluator(env));
    Registry.SymbolKind(Registry.IdentifierFn);
    WalkBuiltinLeaf(fuel, s1, RefX);
    BoundCloses(fuel, s1, RefX);
    PushedInRoot(env, Get(env, "x").value);
  }

  /** The program `x` with "x" bound yields its value. */
  lemma RunBoundX(fuel: nat, env: ValidEnv)
    requires "x" in Names(env)
    ensures Run(fuel, env, NewSexpression("root", [RefX])) == (Ok(Get(env, "x").value), env)
  {
    var w := Get(env, "x").value;
    var root := NewSexpression("root", [RefX]);
    var s0 := NewEvaluator(env);
    BoundXInRoot(fuel, env);
    EnterRoot(s0, RefX);
    Callbacks(fuel, s0, root);
    WalkOnlyChild(EvalVisitor(fuel), s0, root);
    Callbacks(fuel, EvalState(false, [[], [w]], env), root);
    LeaveRoot(fuel, RefX, w, env);
  }

  /** An unbound identifier, walked, fails and binds nothing. */
  lemma WalkUnbound(fuel: nat, s: EvalState, e: Sexp)
    requires |s.frames| > 0 && !s.isBinding && e.kind == "identifier" && IsAtomic(e) && e.value != ""
    requires e.value !in Names(s.env)
    ensures WalkNode(EvalVisitor(fuel), s, e).1.Fail? && WalkNode(EvalVisitor(fuel), s, e).0.env == s.env
  {
    Registry.SymbolKind(Registry.IdentifierFn);
    WalkBuiltinLeaf(fuel, s, e);
    LeaveIdentifierResolves(fuel, Opened(s), e);
  }

  /** The program `x` with "x" unbound fails and binds nothing. */
  lemma RunUnboundX(fuel: nat, env: ValidEnv)
    requires "x" !in Names(env)
    ensures var (r, env2) := Run(fuel, env, NewSexpression("root", [RefX]));
            r.Fail? && env2 == env
  {
    var root := NewSexpression("root", [RefX]);
    var s0 := NewEvaluator(env);
    WalkUnbound(fuel, Opened(s0), RefX);
    EnterRoot(s0, RefX);
    Callbacks(fuel, s0, root);
    WalkOnlyChild(EvalVisitor(fuel), s0, root);
  }

  /** A binding made by one program is seen by the next program run over
      the same environment: `(def x "a")` then `x` gives "a". */
  lemma DefThenResolve(fuel: nat, env: ValidEnv)
    ensures var env2 := Run(fuel, env, NewSexpression("root", [DefXA])).1;
            Run(fuel, env2, NewSexpression("root", [RefX])) == (Ok(Str("a")), env2)
  {
    RunDefXA(fuel, env);
    RunRefX(fuel, Bind(env, "x", Str("a")));
  }

  // ---------------------------------------------------------------------
  // Programs of several expressions: the root's frame collects one value
  // per top-level expression, and `root` pops only the last of them.

  /** A sibling that walks without error hands its state to the next. */
  lemma WalkNext(v: Visitor<EvalState>, s: EvalState, cs: seq<Sexp>, s1: EvalState)
    requires |cs| > 0 && WalkNode(v, s, cs[0]) == (s1, Ok(Unit))
    ensures WalkChildren(v, s, cs) == WalkChildren(v, s1, cs[1..])
  {
  }

  /** Pushing on the frame of a program's root. */
  lemma PushedOnRoot(b: bool, items: seq<Value>, env: ValidEnv, w: Value)
    ensures Pushed(EvalState(b, [[], items], env), w) == EvalState(b, [[], items + [w]], env)
  {
    var s := EvalState(b, [[], items], env);
    assert s.frames[..1] == [[]] && s.frames[1] == items;
  }

  /** Closing a program's root over the values of its expressions leaves
      them all in the one frame, the last on top. */
  lemma LeaveRootOver(fuel: nat, cs: seq<Sexp>, items: seq<Value>, env: ValidEnv)
    requires |cs| > 0 && |items| > 0
    ensures Leave(fuel, EvalState(false, [[], items], env), NewSexpression("root", cs))
            == (EvalState(false, [items], env), Ok(Unit))
  {
    var e := NewSexpression("root", cs);
    var s3 := EvalState(false, [[], items], env);
    Registry.SymbolKind(Registry.Root);
    assert Prepare(s3, e) == s3;
    assert Builtins.Validate(Registry.Root, env, items).None?;
    LeaveEvaluates(fuel, s3, e, Registry.Root);
    LeaveState(fuel, s3, e);
    var eff := Builtins.Evaluate(Registry.Root, env, items);
    assert eff.frame + [eff.result.value] == items;
    var (t, res) := Leave(fuel, s3, e);
    assert t.frames == [[] + eff.frame + [eff.result.value]];
    assert [] + eff.frame == eff.frame;
    assert res.value == Unit;
  }

  /** A program whose expressions, walked one after the other in its
      root's frame, leave `items` there and the bindings `env2` evaluates to
      the last of those values and leaves `env2` behind. */
  lemma RunRootOver(fuel: nat, env: ValidEnv, cs: seq<Sexp>, items: seq<Value>, env2: ValidEnv)
    requires |cs| > 0 && |items| > 0
    requires WalkChildren(EvalVisitor(fuel), Opened(NewEvaluator(env)), cs)
             == (EvalState(false, [[], items], env2), Ok(Unit))
    ensures Run(fuel, env, NewSexpression("root", cs)) == (Ok(items[|items| - 1]), env2)
  {
    var v := EvalVisitor(fuel);
    var root := NewSexpression("root", cs);
    var s0 := NewEvaluator(env);
    Registry.SymbolKind(Registry.Root);
    EnterOpensFrame(s0, root);
    Callbacks(fuel, s0, root);
    WalkEntered(v, s0, root);
    Callbacks(fuel, EvalState(false, [[], items], env2), root);
    LeaveRootOver(fuel, cs, items, env2);
    WalkIsWalkNode(fuel, s0, root);
  }

  /** A comment, walked, pushes its text on the current frame: `;` pops the
      text it was given and returns it. */
  lemma WalkComment(fuel: nat, s: EvalState, e: Sexp)
    requires |s.frames| > 0 && e.kind == ";" && IsAtomic(e) && e.value != ""
    ensures WalkNode(EvalVisitor(fuel), s, e) == (Pushed(s, CharSeq(e.value)), Ok(Unit))
  {
    Registry.SymbolKind(Registry.Comment);
    WalkBuiltinLeaf(fuel, s, e);
    LeaveComment(fuel, s, e);
  }

  /** Closing a comment's frame pushes its text on the frame below. */
  lemma LeaveComment(fuel: nat, s: EvalState, e: Sexp)
    requires |s.frames| > 0 && e.kind == ";" && IsAtomic(e) && e.value != ""
    ensures Leave(fuel, Opened(s), e) == (Pushed(s, CharSeq(e.value)), Ok(Unit))
  {
    var s1 := Opened(s);
    Registry.SymbolKind(Registry.Comment);
    assert Prepare(s1, e).frames[|s1.frames| - 1] == [CharSeq(e.value)];
    assert Builtins.Validate(Registry.Comment, s.env, [CharSeq(e.value)]).None?;
    LeaveEvaluates(fuel, s1, e, Registry.Comment);
    LeaveState(fuel, s1, e);
    ClosedOverOpened(s, Leave(fuel, s1, e).0, CharSeq(e.value));
  }

  /** The comments of the script. The lexer keeps the text between the `;`
      and the end of the line, a second `;` included. */
  const CommentScript: Sexp := NewAtomic(";", " this is a lingo script")

  const CommentDefine: Sexp := NewAtomic(";", "; define two variables")

  const CommentYield: Sexp := NewAtomic(";", " this should yield abc")

  const RefY: Sexp := NewAtomic("identifier", "y")

  const StrC: Sexp := NewAtomic("string", "c")

  /** `(concat x y "c")`. */
  const ConcatXYC: Sexp := NewSexpression("concat", [RefX, RefY, StrC])

  /** The top-level expressions the parser builds for the script
      run_test.go runs: three comments, two definitions and the
      concatenation of the defined names with "c". */
  const Script: seq<Sexp> :=
    [CommentScript, CommentDefine, DefForm("x", "a"), DefForm("y", "b"), CommentYield, ConcatXYC]

  /** A bound identifier outside a `def`, walked, pushes its value. */
  lemma WalkBound(fuel: nat, s: EvalState, e: Sexp, w: Value)
    requires |s.frames| > 0 && !s.isBinding && e.kind == "identifier" && IsAtomic(e) && e.value != ""
    requires Get(s.env, e.value) == Some(w)
    ensures WalkNode(EvalVisitor(fuel), s, e) == (Pushed(s, w), Ok(Unit))
  {
    WalkIdentifier(fuel, s, e);
  }

  /** A literal argument outside a `def` and the value it evaluates to: a
      bound identifier its value, a string its text. */
  predicate Literal(env: ValidEnv, e: Sexp, w: Value) {
    IsAtomic(e) && e.value != ""
    && ((e.kind == "identifier" && Get(env, e.value) == Some(w)) || (e.kind == "string" && w == Str(e.value)))
  }

  /** An argument walked into a frame opened over `s` that already holds
      `xs` pushes its value. */
  lemma ArgumentInto(fuel: nat, s: EvalState, xs: seq<Value>, e: Sexp, w: Value)
    requires |s.frames| > 0 && !s.isBinding && Literal(s.env, e, w)
    ensures WalkNode(EvalVisitor(fuel), s.(frames := s.frames + [xs]), e)
            == (s.(frames := s.frames + [xs + [w]]), Ok(Unit))
  {
    var t := s.(frames := s.frames + [xs]);
    if e.kind == "identifier" {
      WalkBound(fuel, t, e, w);
    } else {
      WalkString(fuel, t, e);
    }
    PushOnOpened(s, xs, w);
  }

  /** Literal arguments, walked one after the other into a frame opened
      over `s`, push their values in order. */
  lemma {:induction false} ArgumentsInto(fuel: nat, s: EvalState, xs: seq<Value>, es: seq<Sexp>, ws: seq<Value>)
    requires |s.frames| > 0 && !s.isBinding && |es| == |ws|
    requires forall i :: 0 <= i < |es| ==> Literal(s.env, es[i], ws[i])
    ensures WalkChildren(EvalVisitor(fuel), s.(frames := s.frames + [xs]), es)
            == (s.(frames := s.frames + [xs + ws]), Ok(Unit))
    decreases |es|
  {
    if |es| == 0 {
      assert xs + ws == xs;
    } else {
      ArgumentInto(fuel, s, xs, es[0], ws[0]);
      ArgumentsInto(fuel, s, xs + [ws[0]], es[1..], ws[1..]);
      assert xs + [ws[0]] + ws[1..] == xs + ws;
    }
  }

  /** With "x" bound to "a" and "y" to "b", the arguments of `(concat x y
      "c")` fill its frame with the three strings. */
  lemma ConcatXYCArguments(fuel: nat, s: EvalState)
    requires |s.frames| > 0 && !s.isBinding
    requires Get(s.env, "x") == Some(Str("a")) && Get(s.env, "y") == Some(Str("b"))
    ensures WalkChildren(EvalVisitor(fuel), Opened(s), ConcatXYC.children)
            == (s.(frames := s.frames + [[Str("a"), Str("b"), Str("c")]]), Ok(Unit))
  {
    var ws := [Str("a"), Str("b"), Str("c")];
    assert Literal(s.env, RefX, ws[0]) && Literal(s.env, RefY, ws[1]) && Literal(s.env, StrC, ws[2]);
    ArgumentsInto(fuel, s, [], ConcatXYC.children, ws);
    assert [] + ws == ws;
  }

  /** `concat` joins the three strings. */
  lemma ConcatXYCEffect(env: ValidEnv)
    ensures Builtins.Validate(Registry.Concat, env, [Str("a"), Str("b"), Str("c")]).None?
    ensures Builtins.Evaluate(Registry.Concat, env, [Str("a"), Str("b"), Str("c")]) == Builtins.Effect([], env, Ok(Str("abc")))
  {
    var f := [Str("a"), Str("b"), Str("c")];
    assert Builtins.ValidateConcat(f).None?;
    Builtins.ConcatResult(env, f);
    assert Builtins.Texts(f) == "abc";
  }

  /** With "x" bound to "a" and "y" to "b", `(concat x y "c")` pushes
      "abc". */
  lemma WalkConcatXYC(fuel: nat, s: EvalState)
    requires |s.frames| > 0 && !s.isBinding
    requires Get(s.env, "x") == Some(Str("a")) && Get(s.env, "y") == Some(Str("b"))
    ensures WalkNode(EvalVisitor(fuel), s, ConcatXYC) == (Pushed(s, Str("abc")), Ok(Unit))
  {
    Registry.SymbolKind(Registry.Concat);
    WalkBuiltinForm(fuel, s, ConcatXYC);
    ConcatXYCArguments(fuel, s);
    ConcatXYCEffect(s.env);
    LeaveForm(fuel, s, [Str("a"), Str("b"), Str("c")], ConcatXYC, Registry.Concat, Str("abc"));
  }

  /** The state of a program's root whose frame holds `items`. */
  function InRoot(items: seq<Value>, env: ValidEnv): EvalState {
    EvalState(false, [[], items], env)
  }

  /** One more top-level expression walked in the root's frame. */
  lemma StepInRoot(fuel: nat, items: seq<Value>, env: ValidEnv, cs: seq<Sexp>, w: Value, env2: ValidEnv)
    requires |cs| > 0
    requires WalkNode(EvalVisitor(fuel), InRoot(items, env), cs[0])
             == (EvalState(false, Pushed(InRoot(items, env), w).frames, env2), Ok(Unit))
    ensures WalkChildren(EvalVisitor(fuel), InRoot(items, env), cs)
            == WalkChildren(EvalVisitor(fuel), InRoot(items + [w], env2), cs[1..])
  {
    PushedOnRoot(false, items, env, w);
  }

  /** A comment at the top level of a program. */
  lemma CommentInRoot(fuel: nat, items: seq<Value>, env: ValidEnv, e: Sexp)
    requires e.kind == ";" && IsAtomic(e) && e.value != ""
    ensures WalkNode(EvalVisitor(fuel), InRoot(items, env), e)
            == (EvalState(false, Pushed(InRoot(items, env), CharSeq(e.value)).frames, env), Ok(Unit))
  {
    WalkComment(fuel, InRoot(items, env), e);
  }

  /** A definition at the top level of a program. */
  lemma DefInRoot(fuel: nat, items: seq<Value>, env: ValidEnv, n: string, t: string)
    requires n != "" && t != ""
    ensures WalkNode(EvalVisitor(fuel), InRoot(items, env), DefForm(n, t))
            == (EvalState(false, Pushed(InRoot(items, env), DefRowOf(n, t)).frames, Bind(env, n, Str(t))), Ok(Unit))
  {
    WalkDef(fuel, InRoot(items, env), n, t);
  }

  /** A comment first among the remaining top-level expressions leaves its
      text in the root's frame. */
  lemma CommentStep(fuel: nat, items: seq<Value>, env: ValidEnv, cs: seq<Sexp>)
    requires |cs| > 0 && cs[0].kind == ";" && IsAtomic(cs[0]) && cs[0].value != ""
    ensures WalkChildren(EvalVisitor(fuel), InRoot(items, env), cs)
            == WalkChildren(EvalVisitor(fuel), InRoot(items + [CharSeq(cs[0].value)], env), cs[1..])
  {
    CommentInRoot(fuel, items, env, cs[0]);
    StepInRoot(fuel, items, env, cs, CharSeq(cs[0].value), env);
  }

  /** A definition first among the remaining top-level expressions leaves
      its row in the root's frame and binds its name. */
  lemma DefStep(fuel: nat, items: seq<Value>, env: ValidEnv, cs: seq<Sexp>, n: string, t: string)
    requires |cs| > 0 && cs[0] == DefForm(n, t) && n != "" && t != ""
    ensures WalkChildren(EvalVisitor(fuel), InRoot(items, env), cs)
            == WalkChildren(EvalVisitor(fuel), InRoot(items + [DefRowOf(n, t)], Bind(env, n, Str(t))), cs[1..])
  {
    DefInRoot(fuel, items, env, n, t);
    StepInRoot(fuel, items, env, cs, DefRowOf(n, t), Bind(env, n, Str(t)));
  }

  /** The script's definitions bind "x" to "a" and "y" to "b". */
  lemma ScriptBindings(env: ValidEnv)
    ensures var env2 := Bind(Bind(env, "x", Str("a")), "y", Str("b"));
            Get(env2, "x") == Some(Str("a")) && Get(env2, "y") == Some(Str("b"))
  {
  }

  /** What the script's top-level expressions leave in the root's frame,
      one value each. */
  function ScriptItems(k: nat): seq<Value>
    requires k <= 6
  {
    [CharSeq(CommentScript.value), CharSeq(CommentDefine.value), DefRowOf("x", "a"), DefRowOf("y", "b"),
     CharSeq(CommentYield.value), Str("abc")][..k]
  }

  /** The script's first comment leaves its text. */
  lemma ScriptFirstComment(fuel: nat, env: ValidEnv)
    ensures WalkChildren(EvalVisitor(fuel), InRoot([], env), Script)
            == WalkChildren(EvalVisitor(fuel), InRoot(ScriptItems(1), env), Script[1..])
  {
    CommentStep(fuel, [], env, Script);
    assert [] + [CharSeq(CommentScript.value)] == ScriptItems(1);
  }

  /** The second comment, `;; define two variables`, leaves its text after
      the first `;`. */
  lemma ScriptSecondComment(fuel: nat, env: ValidEnv)
    ensures WalkChildren(EvalVisitor(fuel), InRoot(ScriptItems(1), env), Script[1..])
            == WalkChildren(EvalVisitor(fuel), InRoot(ScriptItems(2), env), Script[2..])
  {
    CommentStep(fuel, ScriptItems(1), env, Script[1..]);
    assert Script[1..][1..] == Script[2..];
    assert ScriptItems(1) + [CharSeq(CommentDefine.value)] == ScriptItems(2);
  }

  /** The definition of "x". */
  lemma ScriptDefX(fuel: nat, env: ValidEnv)
    ensures WalkChildren(EvalVisitor(fuel), InRoot(ScriptItems(2), env), Script[2..])
            == WalkChildren(EvalVisitor(fuel), InRoot(ScriptItems(3), Bind(env, "x", Str("a"))), Script[3..])
  {
    DefStep(fuel, ScriptItems(2), env, Script[2..], "x", "a");
    assert ScriptItems(2) + [DefRowOf("x", "a")] == ScriptItems(3);
    assert Script[2..][1..] == Script[3..];
  }

  /** The definition of "y". */
  lemma ScriptDefY(fuel: nat, env: ValidEnv)
    ensures WalkChildren(EvalVisitor(fuel), InRoot(ScriptItems(3), env), Script[3..])
            == WalkChildren(EvalVisitor(fuel), InRoot(ScriptItems(4), Bind(env, "y", Str("b"))), Script[4..])
  {
    DefStep(fuel, ScriptItems(3), env, Script[3..], "y", "b");
    assert ScriptItems(3) + [DefRowOf("y", "b")] == ScriptItems(4);
    assert Script[3..][1..] == Script[4..];
  }

  /** The comment before the last expression. */
  lemma ScriptLastComment(fuel: nat, env: ValidEnv)
    ensures WalkChildren(EvalVisitor(fuel), InRoot(ScriptItems(4), env), Script[4..])
            == WalkChildren(EvalVisitor(fuel), InRoot(ScriptItems(5), env), [ConcatXYC])
  {
    CommentStep(fuel, ScriptItems(4), env, Script[4..]);
    assert ScriptItems(4) + [CharSeq(CommentYield.value)] == ScriptItems(5);
    assert Script[4..][1..] == [ConcatXYC];
  }

  /** The script's last expression, `(concat x y "c")`, leaves "abc". */
  lemma ScriptConcat(fuel: nat, env: ValidEnv)
    ensures var env2 := Bind(Bind(env, "x", Str("a")), "y", Str("b"));
            WalkChildren(EvalVisitor(fuel), InRoot(ScriptItems(5), env2), [ConcatXYC])
            == (InRoot(ScriptItems(6), env2), Ok(Unit))
  {
    var env2 := Bind(Bind(env, "x", Str("a")), "y", Str("b"));
    ScriptBindings(env);
    WalkConcatXYC(fuel, InRoot(ScriptItems(5), env2));
    StepInRoot(fuel, ScriptItems(5), env2, [ConcatXYC], Str("abc"), env2);
    assert [ConcatXYC][1..] == [];
    assert ScriptItems(5) + [Str("abc")] == ScriptItems(6);
  }

  /** Walked in the root's frame, the script leaves one value per top-level
      expression and binds "x" and "y". */
  lemma WalkScript(fuel: nat, env: ValidEnv)
    ensures WalkChildren(EvalVisitor(fuel), Opened(NewEvaluator(env)), Script)
            == (EvalState(false, [[], ScriptItems(6)], Bind(Bind(env, "x", Str("a")), "y", Str("b"))), Ok(Unit))
  {
    var env2 := Bind(Bind(env, "x", Str("a")), "y", Str("b"));
    assert Opened(NewEvaluator(env)) == InRoot([], env);
    ScriptFirstComment(fuel, env);
    ScriptSecondComment(fuel, env);
    ScriptDefX(fuel, env);
    ScriptDefY(fuel, Bind(env, "x", Str("a")));
    ScriptLastComment(fuel, env2);
    ScriptConcat(fuel, env);
  }

  /** The last value the script leaves is "abc". */
  lemma ScriptLastItem()
    ensures |ScriptItems(6)| == 6 && ScriptItems(6)[5] == Str("abc")
  {
  }

  /** The script of run_test.go evaluates to "abc": each top-level
      expression leaves its value in the root's frame, and `root` yields
      the last one. "x" and "y" stay bound. */
  lemma RunScript(fuel: nat, env: ValidEnv)
    ensures Run(fuel, env, NewSexpression("root", Script))
            == (Ok(Str("abc")), Bind(Bind(env, "x", Str("a")), "y", Str("b")))
  {
    var items := ScriptItems(6);
    WalkScript(fuel, env);
    ScriptLastItem();
    RunRootOver(fuel, env, Script, items, Bind(Bind(env, "x", Str("a")), "y", Str("b")));
  }

  // ---------------------------------------------------------------------
  // quote_test.go: `quote` yields its expression, and `eval` walks it.

  /** Entering a `quote` node captures it in a new frame and does not
      descend. */
  lemma EnterQuote(s: EvalState, q: Sexp)
    requires q.kind == "quote" && Normal(q)
    ensures Enter(s, q) == (s.(frames := s.frames + [[SexpVal(q)]]), Ok(false))
  {
    Registry.SymbolKind(Registry.QuoteFn);
    DeepCopyOfNormal(q);
  }

  /** `quote` accepts the captured expression and yields it. */
  lemma QuoteEffect(env: ValidEnv, q: Sexp)
    ensures Builtins.Validate(Registry.QuoteFn, env, [SexpVal(q)]).None?
    ensures Builtins.Evaluate(Registry.QuoteFn, env, [SexpVal(q)]) == Builtins.Effect([], env, Ok(SexpVal(q)))
  {
    assert Builtins.ValidateQuote([SexpVal(q)]).None?;
  }

  /** A `quote` node, walked, pushes the expression it captures, unwalked. */
  lemma WalkQuote(fuel: nat, s: EvalState, q: Sexp)
    requires |s.frames| > 0 && q.kind == "quote" && !IsAtomic(q) && Normal(q)
    ensures WalkNode(EvalVisitor(fuel), s, q) == (Pushed(s, SexpVal(q)), Ok(Unit))
  {
    var t := s.(frames := s.frames + [[SexpVal(q)]]);
    Registry.SymbolKind(Registry.QuoteFn);
    EnterQuote(s, q);
    Callbacks(fuel, s, q);
    Callbacks(fuel, t, q);
    assert WalkNode(EvalVisitor(fuel), s, q) == Leave(fuel, t, q);
    QuoteEffect(s.env, q);
    LeaveForm(fuel, s, [SexpVal(q)], q, Registry.QuoteFn, SexpVal(q));
  }

  /** The first program of quote_test.go. */
  const QuoteTest: Sexp :=
    NewSexpression("quote", [NewSexpression("concat", [ConcatAB, NewAtomic("string", "c")])])

  /** `(quote (concat (concat "a" "b") "c"))` evaluates to the expression
      it quotes, unevaluated, and binds nothing. */
  lemma RunQuoteTest(fuel: nat, env: ValidEnv)
    ensures Run(fuel, env, NewSexpression("root", [QuoteTest])) == (Ok(SexpVal(QuoteTest)), env)
  {
    var inner := QuoteTest.children[0];
    assert Normal(QuoteTest) by {
      assert Normal(ConcatAB.children[0]) && Normal(ConcatAB.children[1]);
      assert Normal(inner.children[0]) && Normal(inner.children[1]);
    }
    WalkQuote(fuel, InRoot([], env), QuoteTest);
    assert Opened(NewEvaluator(env)) == InRoot([], env);
    StepInRoot(fuel, [], env, [QuoteTest], SexpVal(QuoteTest), env);
    assert [QuoteTest][1..] == [];
    assert [] + [SexpVal(QuoteTest)] == [SexpVal(QuoteTest)];
    RunRootOver(fuel, env, [QuoteTest], [SexpVal(QuoteTest)], env);
  }

  /** A compound node without text renders as its head line, its children
      one level deeper, and its closing line. */
  lemma RenderCompound(e: Sexp, level: nat, head: string, body: string, close: string)
    requires !IsAtomic(e) && e.value == "" && RenderAll(e.children, level + 1) == body
    requires head == Text.Spaces(level) + "(" + e.kind + ":\n" && close == Text.Spaces(level) + ")\n"
    ensures Render(e, level) == head + body + close
  {
    assert e.kind + ":" + "" + "\n" == e.kind + ":\n";
  }

  /** A string atom renders on one line. */
  lemma RenderStringAtom(t: string, level: nat, line: string)
    requires line == Text.Spaces(level) + "(string \"" + t + "\")\n"
    ensures Render(NewAtomic("string", t), level) == line
  {
  }

  /** Two siblings render one after the other. */
  lemma RenderPair(x: Sexp, y: Sexp, level: nat)
    ensures RenderAll([x, y], level) == Render(x, level) + Render(y, level)
  {
    assert [x, y][1..] == [y];
    assert RenderAll([y], level) == Render(y, level) + RenderAll([], level);
  }

  /** The lines of the rendering of quote_test.go's first program, each
      assembled from its indentation and its parts. */
  lemma QuoteTestLines()
    ensures Text.Spaces(0) == "" && Text.Spaces(1) == " " && Text.Spaces(2) == "  " && Text.Spaces(3) == "   "
    ensures "   " + "(string \"" + "a" + "\")\n" == "   (string \"a\")\n"
    ensures "   " + "(string \"" + "b" + "\")\n" == "   (string \"b\")\n"
    ensures "  " + "(string \"" + "c" + "\")\n" == "  (string \"c\")\n"
    ensures "  " + "(" + "concat" + ":\n" == "  (concat:\n" && "  " + ")\n" == "  )\n"
    ensures " " + "(" + "concat" + ":\n" == " (concat:\n" && " " + ")\n" == " )\n"
    ensures "" + "(" + "quote" + ":\n" == "(quote:\n" && "" + ")\n" == ")\n"
  {
  }

  /** `(concat "a" "b")` two levels deep. */
  lemma RenderConcatAB(e: Sexp)
    requires e == ConcatAB
    ensures Render(e, 2) == "  (concat:\n" + ("   (string \"a\")\n" + "   (string \"b\")\n") + "  )\n"
  {
    var a, b := NewAtomic("string", "a"), NewAtomic("string", "b");
    var la, lb := "   (string \"a\")\n", "   (string \"b\")\n";
    QuoteTestLines();
    RenderStringAtom("a", 3, la);
    RenderStringAtom("b", 3, lb);
    assert e.children == [a, b];
    RenderPair(a, b, 3);
    RenderCompound(e, 2, "  (concat:\n", la + lb, "  )\n");
  }

  /** `(concat (concat "a" "b") "c")` one level deep. */
  lemma RenderQuotedConcat(inner: Sexp)
    requires inner == QuoteTest.children[0]
    ensures Render(inner, 1)
            == " (concat:\n"
             + ("  (concat:\n" + ("   (string \"a\")\n" + "   (string \"b\")\n") + "  )\n"
                + "  (string \"c\")\n")
             + " )\n"
  {
    var c := NewAtomic("string", "c");
    var ab := Render(inner.children[0], 2);
    var lc := "  (string \"c\")\n";
    QuoteTestLines();
    RenderConcatAB(inner.children[0]);
    RenderStringAtom("c", 2, lc);
    assert inner.children == [inner.children[0], c];
    RenderPair(inner.children[0], c, 2);
    RenderCompound(inner, 1, " (concat:\n", ab + lc, " )\n");
  }

  /** The value of `(quote (concat (concat "a" "b") "c"))` renders as the
      tree quote_test.go expects: one line per atom, and an opening and a
      closing line per compound node, parenthesised here by nesting. */
  lemma QuoteTestRendering()
    ensures Values.String(SexpVal(QuoteTest))
            == "(quote:\n"
             + (" (concat:\n"
                + ("  (concat:\n" + ("   (string \"a\")\n" + "   (string \"b\")\n") + "  )\n"
                   + "  (string \"c\")\n")
                + " )\n")
             + ")\n"
  {
    var inner := QuoteTest.children[0];
    var body := Render(inner, 1);
    RenderQuotedConcat(inner);
    QuoteTestLines();
    assert QuoteTest.children == [inner];
    assert RenderAll([inner], 1) == body + RenderAll([], 1);
    RenderCompound(QuoteTest, 0, "(quote:\n", body, ")\n");
  }

  /** `(quote (concat "a" "b"))`. */
  const QuoteConcatAB: Sexp := NewSexpression("quote", [ConcatAB])

  /** `(eval (quote (concat "a" "b")))`. */
  const EvalQuoteConcatAB: Sexp := NewSexpression("eval", [QuoteConcatAB])

  /** `(concat "a" "b")` on its own, as `eval` walks it, evaluates to
      "ab". */
  lemma RunBareConcatAB(fuel: nat, env: ValidEnv)
    ensures Run(fuel, env, ConcatAB) == (Ok(Str("ab")), env)
  {
    var s0 := NewEvaluator(env);
    WalkIsWalkNode(fuel, s0, ConcatAB);
    WalkConcatAB(fuel, s0);
    assert Pushed(s0, Str("ab")).frames == [[Str("ab")]];
  }

  /** `eval` of `(quote (concat "a" "b"))`, with one more level of nesting
      available, walks `(concat "a" "b")` to "ab". */
  lemma EvalOfQuoteConcatAB(k: nat, env: ValidEnv)
    ensures EvalEval(k + 1, env, [SexpVal(QuoteConcatAB)]) == Builtins.Effect([], env, Ok(Str("ab")))
  {
    assert Target(QuoteConcatAB) == ConcatAB;
    EvalIsRun(k, env, QuoteConcatAB);
    RunBareConcatAB(k, env);
  }

  /** Without nesting left, `eval` of a non-empty quote runs out. */
  lemma EvalOutOfFuel(env: ValidEnv, x: Sexp)
    requires x.kind == "quote" && |x.children| > 0
    ensures EvalEval(0, env, [SexpVal(x)]) == Builtins.Effect([], env, Fail(OutOfFuel))
  {
    Registry.SymbolKind(Registry.QuoteFn);
  }

  /** Leaving an `eval` node whose captured expression evaluates to `w`
      without touching the bindings pushes `w` onto the frame below. */
  lemma LeaveEvalPushes(fuel: nat, s: EvalState, e: Sexp, x: Sexp, w: Value)
    requires |s.frames| > 0 && !s.isBinding
    requires e.kind == "eval" && !IsAtomic(e)
    requires EvalEval(fuel, s.env, [SexpVal(x)]) == Builtins.Effect([], s.env, Ok(w))
    ensures Leave(fuel, s.(frames := s.frames + [[SexpVal(x)]]), e) == (Pushed(s, w), Ok(Unit))
  {
    var s2 := s.(frames := s.frames + [[SexpVal(x)]]);
    LeaveEval(fuel, s2, e, x);
    LeaveState(fuel, s2, e);
    var t := Leave(fuel, s2, e).0;
    assert s2.frames[..|s2.frames| - 2] == s.frames[..|s.frames| - 1];
    assert s2.frames[|s2.frames| - 2] == s.frames[|s.frames| - 1];
    assert t == Pushed(s, w);
    assert Leave(fuel, s2, e).1.value == Unit;
  }

  /** Leaving an `eval` node whose captured expression fails fails the
      same way, keeping the bindings. */
  lemma LeaveEvalFails(fuel: nat, s: EvalState, e: Sexp, x: Sexp, err: Error)
    requires |s.frames| > 0
    requires e.kind == "eval" && !IsAtomic(e)
    requires EvalEval(fuel, s.env, [SexpVal(x)]) == Builtins.Effect([], s.env, Fail(err))
    ensures var (t, res) := Leave(fuel, s.(frames := s.frames + [[SexpVal(x)]]), e);
            t.env == s.env && res == Fail(err)
  {
    LeaveEval(fuel, s.(frames := s.frames + [[SexpVal(x)]]), e, x);
  }

  /** `(eval (quote (concat "a" "b")))`, walked, pushes "ab" when `eval` may
      nest once more, and runs out of nesting otherwise; the bindings stay
      as they were. */
  lemma WalkEvalQuoteConcatAB(fuel: nat, s: EvalState)
    requires |s.frames| > 0 && !s.isBinding
    ensures var (t, res) := WalkNode(EvalVisitor(fuel), s, EvalQuoteConcatAB);
            t.env == s.env
            && (fuel == 0 ==> res == Fail(OutOfFuel))
            && (fuel > 0 ==> (t, res) == (Pushed(s, Str("ab")), Ok(Unit)))
  {
    var v := EvalVisitor(fuel);
    var s2 := s.(frames := s.frames + [[SexpVal(QuoteConcatAB)]]);
    Registry.SymbolKind(Registry.EvalFn);
    assert Normal(QuoteConcatAB) by {
      assert Normal(ConcatAB.children[0]) && Normal(ConcatAB.children[1]);
    }
    EnterOpensFrame(s, EvalQuoteConcatAB);
    Callbacks(fuel, s, EvalQuoteConcatAB);
    WalkQuote(fuel, Opened(s), QuoteConcatAB);
    PushOnOpened(s, [], SexpVal(QuoteConcatAB));
    assert [] + [SexpVal(QuoteConcatAB)] == [SexpVal(QuoteConcatAB)];
    WalkOnlyChild(v, s, EvalQuoteConcatAB);
    Callbacks(fuel, s2, EvalQuoteConcatAB);
    if fuel == 0 {
      EvalOutOfFuel(s.env, QuoteConcatAB);
      LeaveEvalFails(fuel, s, EvalQuoteConcatAB, QuoteConcatAB, OutOfFuel);
    } else {
      var k: nat := fuel - 1;
      EvalOfQuoteConcatAB(k, s.env);
      LeaveEvalPushes(fuel, s, EvalQuoteConcatAB, QuoteConcatAB, Str("ab"));
    }
  }

  /** The second program of quote_test.go, `(eval (quote (concat "a"
      "b")))`, evaluates to "ab" and binds nothing. With no nesting of
      `eval` left it runs out instead. */
  lemma RunEvalQuoteConcatAB(fuel: nat, env: ValidEnv)
    ensures Run(fuel, env, NewSexpression("root", [EvalQuoteConcatAB]))
            == if fuel == 0 then (Fail(OutOfFuel), env) else (Ok(Str("ab")), env)
  {
    var v := EvalVisitor(fuel);
    var root := NewSexpression("root", [EvalQuoteConcatAB]);
    var s0 := NewEvaluator(env);
    WalkEvalQuoteConcatAB(fuel, InRoot([], env));
    assert Opened(s0) == InRoot([], env);
    if fuel > 0 {
      StepInRoot(fuel, [], env, [EvalQuoteConcatAB], Str("ab"), env);
      assert [EvalQuoteConcatAB][1..] == [];
      assert [] + [Str("ab")] == [Str("ab")];
      RunRootOver(fuel, env, [EvalQuoteConcatAB], [Str("ab")], env);
    } else {
      Registry.SymbolKind(Registry.Root);
      EnterOpensFrame(s0, root);
      Callbacks(fuel, s0, root);
      WalkOnlyChild(v, s0, root);
      WalkIsWalkNode(fuel, s0, root);
    }
  }
}
