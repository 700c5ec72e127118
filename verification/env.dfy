/** The environment and the evaluator's stack of frames (eval/env.go).
    Bindings are kept as an association list with one entry per name; Go's
    map gives no iteration order, so no contract below depends on the order
    of the entries. A frame is the sequence of results pushed onto it, top
    last, and the stack is the sequence of frames, top last. */
module Env {

  import opened Outcomes
  import opened Text
  import opened Values

  datatype Binding = Binding(name: string, value: Value)

  datatype Environment = Environment(bindings: seq<Binding>)

  function Names(env: Environment): set<string>
    decreases |env.bindings|
  {
    if |env.bindings| == 0 then {} else {env.bindings[0].name} + Names(Environment(env.bindings[1..]))
  }

  /** Every name is bound at most once. */
  predicate Valid(env: Environment)
    decreases |env.bindings|
  {
    |env.bindings| == 0
    || (env.bindings[0].name !in Names(Environment(env.bindings[1..])) && Valid(Environment(env.bindings[1..])))
  }

  /** `env.Bindings[name]`. */
  function Get(env: Environment, name: string): (r: Option<Value>)
    ensures r.Some? <==> name in Names(env)
    decreases |env.bindings|
  {
    if |env.bindings| == 0 then None
    else if env.bindings[0].name == name then Some(env.bindings[0].value)
    else Get(Environment(env.bindings[1..]), name)
  }

  function NewEnvironment(): (env: Environment)
    ensures Valid(env) && Names(env) == {}
  {
    Environment([])
  }

  /** `Bind`: sets or overwrites the one binding of `name`. */
  function Bind(env: Environment, name: string, v: Value): (r: Environment)
    requires Valid(env)
    ensures Valid(r)
    ensures Names(r) == Names(env) + {name}
    ensures Get(r, name) == Some(v)
    ensures forall n :: n != name ==> Get(r, n) == Get(env, n)
    decreases |env.bindings|
  {
    if |env.bindings| == 0 then
      var r := Environment([Binding(name, v)]);
      assert r.bindings[1..] == [];
      r
    else if env.bindings[0].name == name then
      var r := Environment([Binding(name, v)] + env.bindings[1..]);
      assert r.bindings[1..] == env.bindings[1..];
      r
    else
      var b := env.bindings[0];
      var rest := Bind(Environment(env.bindings[1..]), name, v);
      var r := Environment([b] + rest.bindings);
      assert r.bindings[1..] == rest.bindings;
      r
  }

  /** `Tidy`: every value's `Tidy` is a no-op for the built-in results;
      then every binding is dropped. */
  function Tidy(env: Environment): (r: Environment)
    ensures Valid(r) && Names(r) == {}
    ensures forall n :: Get(r, n).None?
  {
    Environment([])
  }

  /** `GC`: drops exactly the bindings whose names start with "_v". */
  function GC(env: Environment): (r: Environment)
    requires Valid(env)
    ensures Valid(r)
    ensures forall n :: Get(r, n) == if HasPrefix(n, "_v") then None else Get(env, n)
    ensures Names(r) == set n | n in Names(env) && !HasPrefix(n, "_v")
    decreases |env.bindings|
  {
    if |env.bindings| == 0 then env
    else
      var b := env.bindings[0];
      var tail := Environment(env.bindings[1..]);
      var rest := GC(tail);
      if HasPrefix(b.name, "_v") then rest
      else
        var r := Environment([b] + rest.bindings);
        assert r.bindings[1..] == rest.bindings;
        r
  }

  /** `DeepCopy`: the same names, each bound to a copy of its value. A nil
      value makes the copy fail like the original's method call on nil. */
  function DeepCopy(env: Environment): (r: Outcome<Environment>)
    requires Valid(env)
    ensures r.Fail? <==> exists i :: 0 <= i < |env.bindings| && HasNil(env.bindings[i].value)
    ensures r.Ok? ==> Valid(r.value) && Names(r.value) == Names(env)
    ensures r.Ok? ==> forall n :: n in Names(env) ==> Values.DeepCopy(Get(env, n).value) == Ok(Get(r.value, n).value)
    decreases |env.bindings|
  {
    if |env.bindings| == 0 then Ok(env)
    else
      var b := env.bindings[0];
      var tail := Environment(env.bindings[1..]);
      var copy :- Values.DeepCopy(b.value);
      var rest :- DeepCopy(tail);
      assert forall i :: 1 <= i < |env.bindings| ==> env.bindings[i] == tail.bindings[i - 1];
      var r := Environment([Binding(b.name, copy)] + rest.bindings);
      assert r.bindings[1..] == rest.bindings;
      Ok(r)
  }

  // ---------------------------------------------------------------------
  // Frames.

  type Frame = seq<Value>

  function Size(f: Frame): nat {
    |f|
  }

  function Push(f: Frame, x: Value): (r: Frame)
    ensures |r| == |f| + 1 && r[|f|] == x && r[..|f|] == f
  {
    f + [x]
  }

  /** `Pop`: the top item and the rest; nil and no change on an empty frame. */
  function Pop(f: Frame): (r: (Value, Frame))
    ensures |f| == 0 ==> r == (Nil, f)
    ensures |f| > 0 ==> r == (f[|f| - 1], f[..|f| - 1])
  {
    if |f| == 0 then (Nil, f) else (f[|f| - 1], f[..|f| - 1])
  }

  /** `Peek`: the top item, or nil. */
  function Peek(f: Frame): (r: Value)
    ensures r == Pop(f).0
  {
    if |f| == 0 then Nil else f[|f| - 1]
  }

  /** `GetArgument`: item `i` counted from the bottom; nil when the frame is
      shorter than `i`, and an index-out-of-range panic for `i` equal to the
      size or negative. */
  function GetArgument(f: Frame, i: int): (r: Outcome<Value>)
    ensures 0 <= i < |f| ==> r == Ok(f[i])
    ensures i > |f| ==> r == Ok(Nil)
    ensures i == |f| || i < 0 ==> r.Fail? && r.error.Panic?
  {
    if |f| < i then Ok(Nil)
    else if i < 0 || i == |f| then Fail(Panic("index out of range"))
    else Ok(f[i])
  }

  /** `Append`: the other frame's items go on top, in their order. */
  function Append(f: Frame, g: Frame): (r: Frame)
    ensures |r| == |f| + |g| && r[..|f|] == f && r[|f|..] == g
  {
    f + g
  }

  function Reset(f: Frame): (r: Frame)
    ensures |r| == 0
  {
    []
  }

  /** Push and Pop are last-in first-out, and popping every item of a frame
      returns them top first. */
  lemma PushPop(f: Frame, x: Value)
    ensures Pop(Push(f, x)) == (x, f)
    ensures Peek(Push(f, x)) == x
  {
  }

  /** Popping an item pushed on top of `g` after appending `g` to `f` works
      as if `g` had never been separate: the stacked frames behave as one. */
  lemma {:induction false} PopAppended(f: Frame, g: Frame)
    requires |g| > 0
    ensures Pop(Append(f, g)) == (g[|g| - 1], Append(f, g[..|g| - 1]))
  {
    assert (f + g)[..|f + g| - 1] == f + g[..|g| - 1];
  }

  // ---------------------------------------------------------------------
  // The stack of frames.

  /** `PushStackFrame`: a new empty frame on top. */
  function PushStackFrame(s: seq<Frame>): (r: seq<Frame>)
    ensures |r| == |s| + 1 && r[..|s|] == s && r[|s|] == []
  {
    s + [[]]
  }

  /** `PopStackFrame`: the top frame and the rest; nothing on an empty
      stack. */
  function PopStackFrame(s: seq<Frame>): (r: (Option<Frame>, seq<Frame>))
    ensures |s| == 0 ==> r == (None, s)
    ensures |s| > 0 ==> r == (Some(s[|s| - 1]), s[..|s| - 1])
  {
    if |s| == 0 then (None, s) else (Some(s[|s| - 1]), s[..|s| - 1])
  }

  /** `PeekStackFrame`. */
  function PeekStackFrame(s: seq<Frame>): (r: Option<Frame>)
    ensures r == PopStackFrame(s).0
  {
    if |s| == 0 then None else Some(s[|s| - 1])
  }

  lemma PushPopStackFrame(s: seq<Frame>)
    ensures PopStackFrame(PushStackFrame(s)) == (Some([]), s)
  {
  }
}
