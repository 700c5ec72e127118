/** The macro processor (macro/processor.go): the registered macros and
    `ApplyMacros`, which runs every macro pass over the output of the
    previous one. Go ranges over a map of macros, so the order of the passes
    is unspecified; here it is a parameter. */
module Processor {

  import opened Outcomes
  import opened Sexpr
  import opened Lexer
  import Thread = ThreadMacro
  import Quote = QuoteMacro
  import opened Walker

  /** The registered macros: the threading macro in either mode and the
      quote sugar. (The thread-first macro of macro/threadfirst.go is never
      registered.) */
  datatype Macro = Threading(mode: Thread.Mode) | Quoting

  function Identifier(m: Macro): string {
    match m
    case Threading(mode) => Thread.Identifier(mode)
    case Quoting => Quote.Identifier()
  }

  /** `init`: thread-last, thread-first, then quote. */
  const Registered: seq<Macro> := [Threading(Thread.Last), Threading(Thread.First), Quoting]

  /** One order in which Go's map iteration may visit the registry: every
      registered macro exactly once. */
  predicate IsIterationOrder(order: seq<Macro>) {
    multiset(order) == multiset(Registered)
  }

  /** `HookMacro`: the identifier becomes a token label (a fatal error if it
      already is one); a second macro with the same identifier is fatal. */
  function HookMacro(cfg: LexConfig, ids: seq<string>, m: Macro): (r: Outcome<(LexConfig, seq<string>)>)
    ensures r.Ok? <==> Identifier(m) !in cfg.labels && Identifier(m) !in ids
    ensures r.Ok? ==> r.value.0.labels == cfg.labels + {Identifier(m)} && r.value.1 == ids + [Identifier(m)]
  {
    var (_, cfg1) :- HookToken(cfg, Identifier(m));
    if Identifier(m) in ids then Fail(Panic("macro with id " + Identifier(m) + " already registered"))
    else Ok((cfg1, ids + [Identifier(m)]))
  }

  /** The registrations of `init`, starting from a configuration without
      the three identifiers. */
  function HookAll(cfg: LexConfig, ids: seq<string>, ms: seq<Macro>): Outcome<(LexConfig, seq<string>)>
    decreases |ms|
  {
    if |ms| == 0 then Ok((cfg, ids))
    else
      var (cfg1, ids1) :- HookMacro(cfg, ids, ms[0]);
      HookAll(cfg1, ids1, ms[1..])
  }

  /** `init` succeeds on any configuration that does not yet know the three
      identifiers, and registers exactly them, in order. */
  lemma InitRegistersMacros(cfg: LexConfig)
    requires "->" !in cfg.labels && "->>" !in cfg.labels && "'" !in cfg.labels
    ensures var r := HookAll(cfg, [], Registered);
            r.Ok? && r.value.1 == ["->>", "->", "'"]
            && r.value.0.labels == cfg.labels + {"->>", "->", "'"}
  {
    var r1 := HookMacro(cfg, [], Registered[0]);
    assert r1.Ok?;
    var r2 := HookMacro(r1.value.0, r1.value.1, Registered[1]);
    assert r2.Ok?;
    var r3 := HookMacro(r2.value.0, r2.value.1, Registered[2]);
    assert r3.Ok?;
    assert Registered[1..][1..][1..] == [];
  }

  /** One pass: the walk's outcome and the macro's `Result`. */
  function Pass(m: Macro, e: Sexp): (Outcome<Unit>, Outcome<Sexp>) {
    match m
    case Threading(mode) => Thread.Pass(mode, e)
    case Quoting => Quote.Pass(e)
  }

  /** One iteration of the loop: a walk error is returned; a failed
      `Result` falls back to the copy saved before the pass. */
  function Step(m: Macro, rewritten: Sexp): (r: Outcome<Sexp>)
    ensures Pass(m, rewritten).0.Fail? <==> r.Fail?
    ensures r.Fail? ==> r.error == Pass(m, rewritten).0.error
    ensures r.Ok? ==> r.value == if Pass(m, rewritten).1.Ok? then Pass(m, rewritten).1.value else DeepCopy(rewritten)
  {
    var safe := DeepCopy(rewritten);
    var (walk, result) := Pass(m, rewritten);
    if walk.Fail? then Fail(walk.error)
    else if result.Ok? then Ok(result.value)
    else Ok(safe)
  }

  /** `ApplyMacros` for a given visiting order of the registry. */
  function ApplyMacros(order: seq<Macro>, e: Sexp): Outcome<Sexp>
    decreases |order|
  {
    if |order| == 0 then Ok(e)
    else
      var rewritten :- Step(order[0], e);
      ApplyMacros(order[1..], rewritten)
  }

  /** A pass that leaves a tree alone in every order keeps it. */
  lemma {:induction false} FixedByAll(order: seq<Macro>, e: Sexp)
    requires forall i :: 0 <= i < |order| ==> Step(order[i], e) == Ok(e)
    ensures ApplyMacros(order, e) == Ok(e)
    decreases |order|
  {
    if |order| > 0 {
      assert Step(order[0], e) == Ok(e);
      assert forall i :: 0 <= i < |order[1..]| ==> order[1..][i] == order[i + 1];
      FixedByAll(order[1..], e);
    }
  }

  /** When every pass except one keeps `e`, that one pass turns `e` into
      `r`, and every pass keeps `r`, then any order that contains the pass
      produces `r`. */
  lemma {:induction false} OnePassRewrites(order: seq<Macro>, m: Macro, e: Sexp, r: Sexp)
    requires m in order
    requires forall i :: 0 <= i < |order| && order[i] != m ==> Step(order[i], e) == Ok(e)
    requires Step(m, e) == Ok(r)
    requires forall i :: 0 <= i < |order| ==> Step(order[i], r) == Ok(r)
    ensures ApplyMacros(order, e) == Ok(r)
    decreases |order|
  {
    assert forall i :: 0 <= i < |order[1..]| ==> order[1..][i] == order[i + 1];
    if order[0] == m {
      FixedByAll(order[1..], r);
    } else {
      assert m in order[1..] by {
        var i :| 0 <= i < |order| && order[i] == m;
        assert i > 0 && order[1..][i - 1] == m;
      }
      OnePassRewrites(order[1..], m, e, r);
    }
  }

  /** When the walk of some pass fails on `e`, and every pass before it
      keeps `e`, the processor returns that walk's error. */
  lemma {:induction false} WalkErrorIsFatal(order: seq<Macro>, m: Macro, e: Sexp)
    requires m in order && Pass(m, e).0.Fail?
    requires forall i :: 0 <= i < |order| && order[i] != m ==> Step(order[i], e) == Ok(e)
    ensures ApplyMacros(order, e) == Fail(Pass(m, e).0.error)
    decreases |order|
  {
    assert forall i :: 0 <= i < |order[1..]| ==> order[1..][i] == order[i + 1];
    if order[0] != m {
      assert m in order[1..] by {
        var i :| 0 <= i < |order| && order[i] == m;
        assert i > 0 && order[1..][i - 1] == m;
      }
      WalkErrorIsFatal(order[1..], m, e);
    }
  }

  /** A threading pass keeps a normal tree that holds none of its forms:
      its result fails and the saved copy, equal to the tree, continues. */
  lemma ThreadingKeeps(mode: Thread.Mode, e: Sexp)
    requires Normal(e) && NoKind(e, Thread.Identifier(mode))
    ensures Step(Threading(mode), e) == Ok(e)
  {
    Thread.NoFormsCollectNothing(mode, e);
    Thread.PassRebuildsRoot(mode, e);
    DeepCopyOfNormal(e);
  }

  /** The quote pass keeps a normal root with children and no marker. */
  lemma QuotingKeeps(e: Sexp)
    requires Normal(e) && e.kind == "root" && !IsAtomic(e) && NoKind(e, Quote.Marker)
    ensures Step(Quoting, e) == Ok(e)
  {
    Quote.NoMarkersCopies(e);
    DeepCopyOfNormal(e);
    Quote.PassTranslatesRoot(e);
  }

  // ---------------------------------------------------------------------
  // The thread-first test: `(-> (+ 13 4) (- 5) (* 3))`.

  function Int(v: string): Sexp {
    NewAtomic("int", v)
  }

  const MathForm: Sexp :=
    NewSexpression("->", [NewSexpression("+", [Int("13"), Int("4")]),
                          NewSexpression("-", [Int("5")]),
                          NewSexpression("*", [Int("3")])])

  const MathRewritten: Sexp :=
    NewSexpression("*", [NewSexpression("-", [NewSexpression("+", [Int("13"), Int("4")]), Int("5")]), Int("3")])

  lemma MathFormThreads()
    ensures Thread.Collect(Thread.First, MathForm) == Ok([MathRewritten])
  {
    var cs := MathForm.children;
    var plus := cs[0];
    var minus := cs[1];
    var times := cs[2];
    DeepCopyOfNormal(plus);
    DeepCopyOfNormal(minus);
    DeepCopyOfNormal(times);
    var rest := cs[1..];
    assert rest[..1] == [minus] && rest[..1][..0] == [];
    var inner := NewSexpression("-", [plus, Int("5")]);
    assert Thread.ThreadOnto(Thread.First, plus, rest[..1]) == Thread.Insert(Thread.First, minus, plus);
    assert Thread.Insert(Thread.First, minus, plus) == inner;
    DeepCopyOfNormal(inner);
    assert Thread.ThreadOnto(Thread.First, plus, rest) == Thread.Insert(Thread.First, times, inner);
    assert Thread.Insert(Thread.First, times, inner) == MathRewritten;
    assert !Thread.SomeAtomic(rest) by {
      assert !IsAtomic(rest[0]) && !IsAtomic(rest[1]);
    }
  }

  const MathKinds: set<string> := {"root", "+", "-", "*", "int"}

  /** The shape facts the passes need about the test program and its
      rewriting. */
  lemma MathInputShape()
    ensures var e := NewSexpression("root", [MathForm]);
            Normal(e) && KindsIn(e.children[0].children[0], MathKinds)
            && KindsIn(e.children[0].children[1], MathKinds) && KindsIn(e.children[0].children[2], MathKinds)
  {
  }

  lemma MathOutputShape()
    ensures var r := NewSexpression("root", [MathRewritten]);
            Normal(r) && KindsIn(r, MathKinds)
  {
    assert KindsIn(MathRewritten.children[0].children[0], MathKinds);
  }

  lemma MathShapes()
    ensures var e := NewSexpression("root", [MathForm]);
            var r := NewSexpression("root", [MathRewritten]);
            Normal(e) && Normal(r) && NoKind(e, "->>") && NoKind(e, "'")
            && NoKind(r, "->>") && NoKind(r, "->") && NoKind(r, "'")
  {
    var e := NewSexpression("root", [MathForm]);
    var r := NewSexpression("root", [MathRewritten]);
    MathInputShape();
    MathOutputShape();
    assert "->>" !in MathKinds && "->" !in MathKinds && "'" !in MathKinds;
    PlainKinds(r, MathKinds);
    var cs := e.children[0].children;
    PlainKinds(cs[0], MathKinds);
    PlainKinds(cs[1], MathKinds);
    PlainKinds(cs[2], MathKinds);
    assert NoKind(e.children[0], "->>") && NoKind(e.children[0], "'");
  }

  /** A tree whose kinds all lie in `ks`: it has no node of any other kind. */
  predicate KindsIn(e: Sexp, ks: set<string>) {
    e.kind in ks && forall i :: 0 <= i < |e.children| ==> KindsIn(e.children[i], ks)
  }

  lemma {:induction false} PlainKinds(e: Sexp, ks: set<string>)
    requires KindsIn(e, ks)
    ensures forall k :: k !in ks ==> NoKind(e, k)
    decreases e
  {
    forall k | k !in ks
      ensures NoKind(e, k)
    {
      forall i | 0 <= i < |e.children|
        ensures NoKind(e.children[i], k)
      {
        PlainKinds(e.children[i], ks);
      }
    }
  }

  lemma MathInputSteps()
    ensures var e := NewSexpression("root", [MathForm]);
            Step(Threading(Thread.Last), e) == Ok(e) && Step(Quoting, e) == Ok(e)
  {
    MathShapes();
    ThreadingKeeps(Thread.Last, NewSexpression("root", [MathForm]));
    QuotingKeeps(NewSexpression("root", [MathForm]));
  }

  lemma MathRewriteStep()
    ensures Step(Threading(Thread.First), NewSexpression("root", [MathForm]))
              == Ok(NewSexpression("root", [MathRewritten]))
  {
    var e := NewSexpression("root", [MathForm]);
    MathFormThreads();
    assert Thread.Collect(Thread.First, e) == Thread.CollectAll(Thread.First, [MathForm]);
    assert [MathForm][1..] == [];
    assert Thread.CollectAll(Thread.First, [MathForm][1..]) == Ok([]);
    assert [MathRewritten] + [] == [MathRewritten];
    Thread.PassRebuildsRoot(Thread.First, e);
  }

  lemma MathOutputSteps()
    ensures var r := NewSexpression("root", [MathRewritten]);
            forall m :: m in Registered ==> Step(m, r) == Ok(r)
  {
    var r := NewSexpression("root", [MathRewritten]);
    MathShapes();
    ThreadingKeeps(Thread.Last, r);
    ThreadingKeeps(Thread.First, r);
    QuotingKeeps(r);
  }

  /** Every order of the three passes turns the parsed test program into
      `(root (* (- (+ 13 4) 5) 3))`: the thread-last and quote passes leave
      both the input and the output alone. */
  lemma ThreadFirstMathAnyOrder(order: seq<Macro>)
    requires IsIterationOrder(order)
    ensures ApplyMacros(order, NewSexpression("root", [MathForm])) == Ok(NewSexpression("root", [MathRewritten]))
  {
    var e := NewSexpression("root", [MathForm]);
    var r := NewSexpression("root", [MathRewritten]);
    assert Threading(Thread.First) in multiset(order);
    forall i | 0 <= i < |order|
      ensures order[i] in Registered
    {
      assert order[i] in multiset(order);
    }
    MathInputSteps();
    MathRewriteStep();
    MathOutputSteps();
    OnePassRewrites(order, Threading(Thread.First), e, r);
  }

  const AtomicTargetForm: Sexp := NewSexpression("root", [NewSexpression("->", [Int("1"), Int("2")])])

  lemma AtomicTargetSteps()
    ensures Step(Threading(Thread.Last), AtomicTargetForm) == Ok(AtomicTargetForm)
    ensures Step(Quoting, AtomicTargetForm) == Ok(AtomicTargetForm)
  {
    var e := AtomicTargetForm;
    assert NoKind(e.children[0], "->>") && NoKind(e.children[0], "'");
    ThreadingKeeps(Thread.Last, e);
    QuotingKeeps(e);
  }

  lemma AtomicTargetWalk()
    ensures Pass(Threading(Thread.First), AtomicTargetForm).0 == Fail(Error(Thread.AtomicTarget))
  {
    var e := AtomicTargetForm;
    var f := e.children[0];
    assert Thread.SomeAtomic(f.children[1..]) by {
      assert IsAtomic(f.children[1..][0]);
    }
    assert Thread.Collect(Thread.First, f) == Fail(Error(Thread.AtomicTarget));
    assert Thread.Collect(Thread.First, e) == Thread.CollectAll(Thread.First, [f]);
    Thread.PassRebuildsRoot(Thread.First, e);
  }

  /** An atomic threading target, `(-> 1 2)`, is fatal in every order. */
  lemma AtomicTargetIsFatal(order: seq<Macro>)
    requires IsIterationOrder(order)
    ensures ApplyMacros(order, AtomicTargetForm) == Fail(Error(Thread.AtomicTarget))
  {
    assert Threading(Thread.First) in multiset(order);
    forall i | 0 <= i < |order|
      ensures order[i] in Registered
    {
      assert order[i] in multiset(order);
    }
    AtomicTargetSteps();
    AtomicTargetWalk();
    WalkErrorIsFatal(order, Threading(Thread.First), AtomicTargetForm);
  }
}
