/** The depth-first, left-to-right tree walker (traversal/walker.go) and the
    visitor contract it drives (traversal/visitor.go). A visitor is a record
    of four callbacks over a state `S`; every callback returns the new state
    even when it reports an error, because the Go visitors mutate their
    receiver before failing. */
module Walker {

  import opened Outcomes
  import opened Sexpr

  datatype Unit = Unit

  datatype Visitor<!S> = Visitor(
    before: S -> S,
    enter: (S, Sexp) -> (S, Outcome<bool>),
    leave: (S, Sexp) -> (S, Outcome<Unit>),
    after: S -> S)

  /** `Walk`: `Before`, then the walk of the tree; `After` only when the walk
      succeeded. */
  function Walk<S>(v: Visitor<S>, s: S, e: Sexp): (r: (S, Outcome<Unit>))
  {
    var (s1, res) := WalkNode(v, v.before(s), e);
    if res.Fail? then (s1, res) else (v.after(s1), res)
  }

  /** `walk`: `Enter`; the children in order if `Enter` said so; `Leave`.
      The first error ends the walk. */
  function WalkNode<S>(v: Visitor<S>, s: S, e: Sexp): (r: (S, Outcome<Unit>))
    decreases e, 1
  {
    var (s1, entered) := v.enter(s, e);
    if entered.Fail? then (s1, Fail(entered.error))
    else
      var (s2, res) := if entered.value then WalkChildren(v, s1, e.children) else (s1, Ok(Unit));
      if res.Fail? then (s2, res) else v.leave(s2, e)
  }

  function WalkChildren<S>(v: Visitor<S>, s: S, cs: seq<Sexp>): (r: (S, Outcome<Unit>))
    decreases cs, 0
  {
    if |cs| == 0 then (s, Ok(Unit))
    else
      var (s1, res) := WalkNode(v, s, cs[0]);
      if res.Fail? then (s1, res) else WalkChildren(v, s1, cs[1..])
  }

  /** The walk of a leaf whose `Enter` succeeds is its `Leave`. */
  lemma WalkLeaf<S>(v: Visitor<S>, s: S, e: Sexp)
    requires IsAtomic(e) && v.enter(s, e).1.Ok?
    ensures WalkNode(v, s, e) == v.leave(v.enter(s, e).0, e)
  {
  }

  /** The walk of a node entered and descended into: its children, then
      its `Leave` unless a child failed. */
  lemma WalkEntered<S>(v: Visitor<S>, s: S, e: Sexp)
    requires v.enter(s, e).1 == Ok(true)
    ensures var (s2, res) := WalkChildren(v, v.enter(s, e).0, e.children);
            WalkNode(v, s, e) == if res.Fail? then (s2, res) else v.leave(s2, e)
  {
  }

  /** Two siblings are walked one after the other; the second is skipped
      when the first fails. */
  lemma WalkTwoChildren<S>(v: Visitor<S>, s: S, a: Sexp, b: Sexp)
    ensures var (s1, res) := WalkNode(v, s, a);
            WalkChildren(v, s, [a, b]) == if res.Fail? then (s1, res) else WalkNode(v, s1, b)
  {
    var (s1, res) := WalkNode(v, s, a);
    assert [a, b][1..] == [b] && [b][1..] == [];
    assert WalkChildren(v, s, [a, b]) == if res.Fail? then (s1, res) else WalkChildren(v, s1, [b]);
    if res.Ok? {
      var (s2, res2) := WalkNode(v, s1, b);
      assert WalkChildren(v, s1, [b]) == if res2.Fail? then (s2, res2) else WalkChildren(v, s2, []);
      if res2.Ok? {
        assert res2.value == Unit;
      }
    }
  }

  /** The walk of a node with one child, entered and descended into. */
  lemma WalkOnlyChild<S>(v: Visitor<S>, s: S, e: Sexp)
    requires |e.children| == 1 && v.enter(s, e).1 == Ok(true)
    ensures var (s1, res) := WalkNode(v, v.enter(s, e).0, e.children[0]);
            WalkNode(v, s, e) == if res.Fail? then (s1, res) else v.leave(s1, e)
  {
    var (s1, res) := WalkNode(v, v.enter(s, e).0, e.children[0]);
    assert WalkChildren(v, v.enter(s, e).0, e.children) == if res.Fail? then (s1, res) else WalkChildren(v, s1, []);
  }

  // ---------------------------------------------------------------------
  // Observing a walk: every callback is logged, and the log is compared
  // with an independent description of the expected order.

  datatype Event = BeforeEv | EnterEv(node: Sexp) | LeaveEv(node: Sexp) | AfterEv

  /** Wraps a visitor so that each callback also appends an event to a log;
      the wrapped visitor's own behaviour is unchanged. */
  function Instrument<S>(v: Visitor<S>): Visitor<(S, seq<Event>)> {
    Visitor(
      (p: (S, seq<Event>)) => (v.before(p.0), p.1 + [BeforeEv]),
      (p: (S, seq<Event>), e) => var (s1, res) := v.enter(p.0, e); ((s1, p.1 + [EnterEv(e)]), res),
      (p: (S, seq<Event>), e) => var (s1, res) := v.leave(p.0, e); ((s1, p.1 + [LeaveEv(e)]), res),
      (p: (S, seq<Event>)) => (v.after(p.0), p.1 + [AfterEv]))
  }

  /** Instrumenting is transparent: the wrapped walk computes the same state
      and the same outcome as the plain walk. */
  lemma {:induction false} InstrumentNodeTransparent<S>(v: Visitor<S>, s: S, log: seq<Event>, e: Sexp)
    ensures WalkNode(Instrument(v), (s, log), e).0.0 == WalkNode(v, s, e).0
    ensures WalkNode(Instrument(v), (s, log), e).1 == WalkNode(v, s, e).1
    decreases e, 1
  {
    var (s1, entered) := v.enter(s, e);
    if entered.Ok? && entered.value {
      InstrumentChildrenTransparent(v, s1, log + [EnterEv(e)], e.children);
    }
  }

  lemma {:induction false} InstrumentChildrenTransparent<S>(v: Visitor<S>, s: S, log: seq<Event>, cs: seq<Sexp>)
    ensures WalkChildren(Instrument(v), (s, log), cs).0.0 == WalkChildren(v, s, cs).0
    ensures WalkChildren(Instrument(v), (s, log), cs).1 == WalkChildren(v, s, cs).1
    decreases cs, 0
  {
    if |cs| > 0 {
      InstrumentNodeTransparent(v, s, log, cs[0]);
      var p1 := WalkNode(Instrument(v), (s, log), cs[0]);
      InstrumentChildrenTransparent(v, p1.0.0, p1.0.1, cs[1..]);
    }
  }

  lemma InstrumentTransparent<S>(v: Visitor<S>, s: S, e: Sexp)
    ensures Walk(Instrument(v), (s, []), e).0.0 == Walk(v, s, e).0
    ensures Walk(Instrument(v), (s, []), e).1 == Walk(v, s, e).1
  {
    assert Instrument(v).before((s, [])).0 == v.before(s) && Instrument(v).before((s, [])).1 == [BeforeEv];
    InstrumentNodeTransparent(v, v.before(s), [BeforeEv], e);
  }

  /** The instrumented walk only ever appends to the log. */
  lemma {:induction false} LogGrowsNode<S>(v: Visitor<S>, s: S, log: seq<Event>, e: Sexp)
    ensures var l := WalkNode(Instrument(v), (s, log), e).0.1;
            |log| < |l| && l[..|log|] == log && l[|log|] == EnterEv(e)
    decreases e, 1
  {
    var (s1, entered) := v.enter(s, e);
    if entered.Ok? && entered.value {
      LogGrowsChildren(v, s1, log + [EnterEv(e)], e.children);
    }
  }

  lemma {:induction false} LogGrowsChildren<S>(v: Visitor<S>, s: S, log: seq<Event>, cs: seq<Sexp>)
    ensures var l := WalkChildren(Instrument(v), (s, log), cs).0.1;
            |log| <= |l| && l[..|log|] == log
    decreases cs, 0
  {
    if |cs| > 0 {
      LogGrowsNode(v, s, log, cs[0]);
      var p1 := WalkNode(Instrument(v), (s, log), cs[0]);
      LogGrowsChildren(v, p1.0.0, p1.0.1, cs[1..]);
    }
  }

  /** `Before` comes first; `After` is logged exactly when the walk
      succeeded, and then it is the last event. */
  lemma BeforeFirstAfterOnSuccess<S>(v: Visitor<S>, s: S, e: Sexp)
    ensures var (p, res) := Walk(Instrument(v), (s, []), e);
            |p.1| >= 2 && p.1[0] == BeforeEv && p.1[1] == EnterEv(e)
            && (res.Ok? <==> p.1[|p.1| - 1] == AfterEv)
  {
    assert Instrument(v).before((s, [])).0 == v.before(s) && Instrument(v).before((s, [])).1 == [BeforeEv];
    LogGrowsNode(v, v.before(s), [BeforeEv], e);
    AfterNeverInNode(v, v.before(s), [BeforeEv], e);
    var (p, res) := WalkNode(Instrument(v), (v.before(s), [BeforeEv]), e);
    if res.Ok? {
      assert Instrument(v).after(p).0 == v.after(p.0) && Instrument(v).after(p).1 == p.1 + [AfterEv];
    } else {
      assert p.1[|p.1| - 1] in p.1;
    }
  }

  predicate NoAfter(log: seq<Event>) {
    forall i :: 0 <= i < |log| ==> log[i] != AfterEv
  }

  lemma {:induction false} AfterNeverInNode<S>(v: Visitor<S>, s: S, log: seq<Event>, e: Sexp)
    requires NoAfter(log)
    ensures NoAfter(WalkNode(Instrument(v), (s, log), e).0.1)
    decreases e, 1
  {
    var (s1, entered) := v.enter(s, e);
    if entered.Ok? && entered.value {
      AfterNeverInChildren(v, s1, log + [EnterEv(e)], e.children);
    }
  }

  lemma {:induction false} AfterNeverInChildren<S>(v: Visitor<S>, s: S, log: seq<Event>, cs: seq<Sexp>)
    requires NoAfter(log)
    ensures NoAfter(WalkChildren(Instrument(v), (s, log), cs).0.1)
    decreases cs, 0
  {
    if |cs| > 0 {
      AfterNeverInNode(v, s, log, cs[0]);
      var p1 := WalkNode(Instrument(v), (s, log), cs[0]);
      AfterNeverInChildren(v, p1.0.0, p1.0.1, cs[1..]);
    }
  }

  /** `Leave` is still called on a node whose `Enter` declined to descend,
      and its children are not visited. */
  lemma LeaveAfterDeclinedEnter<S>(v: Visitor<S>, s: S, log: seq<Event>, e: Sexp)
    requires v.enter(s, e).1 == Ok(false)
    ensures var s1 := v.enter(s, e).0;
            WalkNode(Instrument(v), (s, log), e).0.1 == log + [EnterEv(e), LeaveEv(e)]
            && WalkNode(v, s, e) == v.leave(s1, e)
  {
  }

  /** An `Enter` error ends the walk of that node before its `Leave`. */
  lemma EnterErrorSkipsLeave<S>(v: Visitor<S>, s: S, log: seq<Event>, e: Sexp)
    requires v.enter(s, e).1.Fail?
    ensures WalkNode(Instrument(v), (s, log), e).0.1 == log + [EnterEv(e)]
    ensures WalkNode(v, s, e) == (v.enter(s, e).0, Fail(v.enter(s, e).1.error))
  {
  }

  /** A child's error ends the walk of the remaining siblings: no callback
      after the failing one. */
  lemma ChildErrorStops<S>(v: Visitor<S>, s: S, log: seq<Event>, cs: seq<Sexp>)
    requires |cs| > 0 && WalkNode(v, s, cs[0]).1.Fail?
    ensures WalkChildren(Instrument(v), (s, log), cs) == WalkNode(Instrument(v), (s, log), cs[0])
  {
    InstrumentNodeTransparent(v, s, log, cs[0]);
  }

  // ---------------------------------------------------------------------
  // The expected order of a complete walk.

  /** Every node entered, children in order, then left. */
  function Trace(e: Sexp): seq<Event>
    decreases e, 1
  {
    [EnterEv(e)] + TraceAll(e.children) + [LeaveEv(e)]
  }

  function TraceAll(cs: seq<Sexp>): seq<Event>
    decreases cs, 0
  {
    if |cs| == 0 then [] else Trace(cs[0]) + TraceAll(cs[1..])
  }

  /** A visitor that always descends and never fails. */
  ghost predicate Permissive<S(!new)>(v: Visitor<S>) {
    (forall s, e :: v.enter(s, e).1 == Ok(true)) && (forall s, e :: v.leave(s, e).1 == Ok(Unit))
  }

  lemma {:induction false} PermissiveNodeTrace<S(!new)>(v: Visitor<S>, s: S, log: seq<Event>, e: Sexp)
    requires Permissive(v)
    ensures WalkNode(Instrument(v), (s, log), e).1 == Ok(Unit)
    ensures WalkNode(Instrument(v), (s, log), e).0.1 == log + Trace(e)
    decreases e, 1
  {
    var s1 := v.enter(s, e).0;
    assert v.enter(s, e).1 == Ok(true);
    PermissiveChildrenTrace(v, s1, log + [EnterEv(e)], e.children);
    var p2 := WalkChildren(Instrument(v), (s1, log + [EnterEv(e)]), e.children);
    assert v.leave(p2.0.0, e).1 == Ok(Unit);
  }

  lemma {:induction false} PermissiveChildrenTrace<S(!new)>(v: Visitor<S>, s: S, log: seq<Event>, cs: seq<Sexp>)
    requires Permissive(v)
    ensures WalkChildren(Instrument(v), (s, log), cs).1 == Ok(Unit)
    ensures WalkChildren(Instrument(v), (s, log), cs).0.1 == log + TraceAll(cs)
    decreases cs, 0
  {
    if |cs| > 0 {
      PermissiveNodeTrace(v, s, log, cs[0]);
      var p1 := WalkNode(Instrument(v), (s, log), cs[0]);
      PermissiveChildrenTrace(v, p1.0.0, p1.0.1, cs[1..]);
    }
  }

  /** A permissive walk logs `Before`, the full trace of the tree, `After`. */
  lemma PermissiveWalkTrace<S(!new)>(v: Visitor<S>, s: S, e: Sexp)
    requires Permissive(v)
    ensures Walk(Instrument(v), (s, []), e).0.1 == [BeforeEv] + Trace(e) + [AfterEv]
  {
    assert Instrument(v).before((s, [])).0 == v.before(s) && Instrument(v).before((s, [])).1 == [BeforeEv];
    PermissiveNodeTrace(v, v.before(s), [BeforeEv], e);
    var p := WalkNode(Instrument(v), (v.before(s), [BeforeEv]), e).0;
    assert Instrument(v).after(p).0 == v.after(p.0) && Instrument(v).after(p).1 == p.1 + [AfterEv];
  }

  /** The nodes of a tree in pre-order and in post-order. */
  function PreOrder(e: Sexp): seq<string>
    decreases e, 1
  {
    [e.kind] + PreOrderAll(e.children)
  }

  function PreOrderAll(cs: seq<Sexp>): seq<string>
    decreases cs, 0
  {
    if |cs| == 0 then [] else PreOrder(cs[0]) + PreOrderAll(cs[1..])
  }

  function PostOrder(e: Sexp): seq<string>
    decreases e, 1
  {
    PostOrderAll(e.children) + [e.kind]
  }

  function PostOrderAll(cs: seq<Sexp>): seq<string>
    decreases cs, 0
  {
    if |cs| == 0 then [] else PostOrder(cs[0]) + PostOrderAll(cs[1..])
  }

  /** The kinds of the entered nodes, and of the left nodes, in log order. */
  function Entered(log: seq<Event>): seq<string> {
    if |log| == 0 then []
    else Entered(log[..|log| - 1]) + if log[|log| - 1].EnterEv? then [log[|log| - 1].node.kind] else []
  }

  function Left(log: seq<Event>): seq<string> {
    if |log| == 0 then []
    else Left(log[..|log| - 1]) + if log[|log| - 1].LeaveEv? then [log[|log| - 1].node.kind] else []
  }

  lemma {:induction false} EnteredAppend(a: seq<Event>, b: seq<Event>)
    ensures Entered(a + b) == Entered(a) + Entered(b)
    ensures Left(a + b) == Left(a) + Left(b)
    decreases |b|
  {
    if |b| == 0 {
      assert a + b == a;
    } else {
      assert (a + b)[..|a + b| - 1] == a + b[..|b| - 1];
      EnteredAppend(a, b[..|b| - 1]);
    }
  }

  lemma {:induction false} TraceOrders(e: Sexp)
    ensures Entered(Trace(e)) == PreOrder(e)
    ensures Left(Trace(e)) == PostOrder(e)
    decreases e, 1
  {
    TraceAllOrders(e.children);
    EnteredAppend([EnterEv(e)] + TraceAll(e.children), [LeaveEv(e)]);
    EnteredAppend([EnterEv(e)], TraceAll(e.children));
    assert Entered([EnterEv(e)]) == [e.kind] by {
      assert [EnterEv(e)][..0] == [];
    }
    assert Left([LeaveEv(e)]) == [e.kind] by {
      assert [LeaveEv(e)][..0] == [];
    }
    assert Entered([LeaveEv(e)]) == [] by {
      assert [LeaveEv(e)][..0] == [];
    }
    assert Left([EnterEv(e)]) == [] by {
      assert [EnterEv(e)][..0] == [];
    }
  }

  lemma {:induction false} TraceAllOrders(cs: seq<Sexp>)
    ensures Entered(TraceAll(cs)) == PreOrderAll(cs)
    ensures Left(TraceAll(cs)) == PostOrderAll(cs)
    decreases cs, 0
  {
    if |cs| > 0 {
      TraceOrders(cs[0]);
      TraceAllOrders(cs[1..]);
      EnteredAppend(Trace(cs[0]), TraceAll(cs[1..]));
    }
  }

  /** For a visitor that always descends and never fails, `Enter` sees the
      nodes in pre-order and `Leave` in post-order. */
  lemma PermissiveOrders<S(!new)>(v: Visitor<S>, s: S, e: Sexp)
    requires Permissive(v)
    ensures Entered(Walk(Instrument(v), (s, []), e).0.1) == PreOrder(e)
    ensures Left(Walk(Instrument(v), (s, []), e).0.1) == PostOrder(e)
  {
    PermissiveWalkTrace(v, s, e);
    TraceOrders(e);
    EnteredAppend([BeforeEv] + Trace(e), [AfterEv]);
    EnteredAppend([BeforeEv], Trace(e));
    assert [BeforeEv][..0] == [] && [AfterEv][..0] == [];
  }

  /** A visitor that records nothing and accepts everything. */
  function Recorder(): Visitor<Unit> {
    Visitor(s => s, (s, e) => (s, Ok(true)), (s, e) => (s, Ok(Unit)), s => s)
  }

  /** The tree of the visitor test and the orders it observes. */
  lemma VisitorTestOrders()
    ensures var t := NewSexpression("root", [
                NewSexpression("def", [NewAtomic("identifier", "a"), NewAtomic("string", "b")]),
                NewSexpression("match", [
                  NewSexpression("name", [NewAtomic("identifier", "a")]),
                  NewAtomic("string", "(exec|match)")])]);
            var log := Walk(Instrument(Recorder()), (Unit, []), t).0.1;
            Entered(log) == ["root", "def", "identifier", "string", "match", "name", "identifier", "string"]
            && Left(log) == ["identifier", "string", "def", "identifier", "name", "string", "match", "root"]
  {
    var t := NewSexpression("root", [
                NewSexpression("def", [NewAtomic("identifier", "a"), NewAtomic("string", "b")]),
                NewSexpression("match", [
                  NewSexpression("name", [NewAtomic("identifier", "a")]),
                  NewAtomic("string", "(exec|match)")])]);
    PermissiveOrders(Recorder(), Unit, t);
    assert PreOrder(t) == ["root", "def", "identifier", "string", "match", "name", "identifier", "string"];
    assert PostOrder(t) == ["identifier", "string", "def", "identifier", "name", "string", "match", "root"];
  }

  /** `w` simulates `v` through the state map `f`: every callback of `w` on
      a mapped state gives the mapped state and the same outcome as `v`. */
  ghost predicate Simulates<S(!new), T>(v: Visitor<S>, w: Visitor<T>, f: S -> T) {
    (forall s :: w.before(f(s)) == f(v.before(s))) && (forall s :: w.after(f(s)) == f(v.after(s)))
    && (forall s, e :: w.enter(f(s), e) == (f(v.enter(s, e).0), v.enter(s, e).1))
    && (forall s, e :: w.leave(f(s), e) == (f(v.leave(s, e).0), v.leave(s, e).1))
  }

  lemma {:induction false} SimulatesNode<S(!new), T>(v: Visitor<S>, w: Visitor<T>, f: S -> T, s: S, e: Sexp)
    requires Simulates(v, w, f)
    ensures WalkNode(w, f(s), e) == (f(WalkNode(v, s, e).0), WalkNode(v, s, e).1)
    decreases e, 1
  {
    assert w.enter(f(s), e) == (f(v.enter(s, e).0), v.enter(s, e).1);
    var (s1, entered) := v.enter(s, e);
    if entered.Ok? && entered.value {
      SimulatesChildren(v, w, f, s1, e.children);
      var s2 := WalkChildren(v, s1, e.children).0;
      assert w.leave(f(s2), e) == (f(v.leave(s2, e).0), v.leave(s2, e).1);
    } else if entered.Ok? {
      assert w.leave(f(s1), e) == (f(v.leave(s1, e).0), v.leave(s1, e).1);
    }
  }

  lemma {:induction false} SimulatesChildren<S(!new), T>(v: Visitor<S>, w: Visitor<T>, f: S -> T, s: S, cs: seq<Sexp>)
    requires Simulates(v, w, f)
    ensures WalkChildren(w, f(s), cs) == (f(WalkChildren(v, s, cs).0), WalkChildren(v, s, cs).1)
    decreases cs, 0
  {
    if |cs| > 0 {
      SimulatesNode(v, w, f, s, cs[0]);
      SimulatesChildren(v, w, f, WalkNode(v, s, cs[0]).0, cs[1..]);
    }
  }

  /** Walking with `w` from a mapped state is walking with `v` and mapping
      the final state. */
  lemma SimulatesWalk<S(!new), T>(v: Visitor<S>, w: Visitor<T>, f: S -> T, s: S, e: Sexp)
    requires Simulates(v, w, f)
    ensures Walk(w, f(s), e) == (f(Walk(v, s, e).0), Walk(v, s, e).1)
  {
    assert w.before(f(s)) == f(v.before(s));
    SimulatesNode(v, w, f, v.before(s), e);
    var s1 := WalkNode(v, v.before(s), e).0;
    assert w.after(f(s1)) == f(v.after(s1));
  }
}
