/** The built-in functions (eval/add.go … eval/vec.go, one file each). A
    built-in first validates the frame of results its sub-expressions left
    and then evaluates it; evaluation pops what it consumes, may change the
    environment, and yields a result. Go panics (a method called on nil, a
    failed type assertion) are `Panic` errors. `eval` needs the evaluator
    itself and is completed in the Evaluator module; its validation is
    here. */
module Builtins {

  import opened Outcomes
  import opened Text
  import opened Values
  import opened Env
  import opened Errors
  import Registry
  import Types
  import Sexpr

  /** What an evaluation leaves behind: the frame after its pops, the
      environment, and the result or the error. */
  datatype Effect = Effect(frame: Frame, env: Environment, result: Outcome<Value>)

  function Label(b: Registry.Builtin): string {
    Registry.Symbol(b)
  }

  // ---------------------------------------------------------------------
  // Type checks shared by the validators.

  /** The item has a type and the check accepts it; asking nil for its type
      panics, so nil never fits. */
  predicate Fits(ok: Types.Type -> bool, v: Value) {
    TypeOf(v).Ok? && ok(TypeOf(v).value)
  }

  /** The first item from position `i` up whose type the check rejects. */
  function FirstMisfit(ok: Types.Type -> bool, f: Frame, i: nat): (r: Option<nat>)
    requires i <= |f|
    ensures r.None? <==> forall j :: i <= j < |f| ==> Fits(ok, f[j])
    ensures r.Some? ==> i <= r.value < |f| && !Fits(ok, f[r.value])
                        && forall j :: i <= j < r.value ==> Fits(ok, f[j])
    decreases |f| - i
  {
    if i == |f| then None
    else if !Fits(ok, f[i]) then Some(i)
    else FirstMisfit(ok, f, i + 1)
  }

  /** The loop over `stack.items`: the first item, from the bottom, that
      fails the check is reported with its position counted from 1. */
  function CheckItems(l: string, ok: Types.Type -> bool, f: Frame): (r: Option<Error>)
    ensures r.None? <==> forall j :: 0 <= j < |f| ==> Fits(ok, f[j])
    ensures r.Some? ==> exists j :: 0 <= j < |f| && !Fits(ok, f[j])
                                    && (forall k :: 0 <= k < j ==> Fits(ok, f[k]))
                                    && r.value == WrongTypeOfArg(l, j + 1, f[j])
  {
    match FirstMisfit(ok, f, 0)
    case None => None
    case Some(j) => Some(WrongTypeOfArg(l, j + 1, f[j]))
  }

  /** The check of one argument at a given 1-based position. */
  function CheckOne(l: string, idx: int, ok: Types.Type -> bool, v: Value): (r: Option<Error>)
    ensures r.None? <==> Fits(ok, v)
    ensures r.Some? ==> r.value == WrongTypeOfArg(l, idx, v)
  {
    if Fits(ok, v) then None else Some(WrongTypeOfArg(l, idx, v))
  }

  function IsCharSeqType(t: Types.Type): bool { t == Types.TypeCharSequence }
  function IsStringType(t: Types.Type): bool { t == Types.TypeString }
  function IsSymbolType(t: Types.Type): bool { t == Types.TypeSymbol }
  function IsKeywordType(t: Types.Type): bool { t == Types.TypeKeyword }
  function IsDictType(t: Types.Type): bool { t == Types.TypeDictionary }
  function IsSexpType(t: Types.Type): bool { t == Types.TypeSexpression }
  function HasSexpId(t: Types.Type): bool { t.id == Types.TypeSexpression.id }
  function HasKeywordId(t: Types.Type): bool { t.id == Types.TypeKeyword.id }
  function IsNumeric(t: Types.Type): bool { Types.HasProperty(t, Types.Numeric) }

  /** A result whose `String()` the model can compute, or nil, whose
      `String()` panics. */
  predicate Renderable(v: Value) {
    v.Nil? || Printable(v)
  }

  // ---------------------------------------------------------------------
  // add

  /** `FunctionAdd.Validate` as written: it asks every item for the
      `Numeric` property, which no type declares. */
  function ValidateAddAsWritten(f: Frame): (r: Option<Error>)
    ensures |f| == 0 ==> r == Some(TooFewArgs("add", 0, 1))
    ensures |f| > 0 ==> r == CheckItems("add", IsNumeric, f)
  {
    if |f| == 0 then Some(TooFewArgs(Label(Registry.Add), 0, 1))
    else CheckItems(Label(Registry.Add), IsNumeric, f)
  }

  /** As written, `add` rejects every frame: an empty one for its size, any
      other one at its first item, even when that item is an integer. */
  lemma AddAlwaysRejected(f: Frame)
    ensures ValidateAddAsWritten(f).Some?
    ensures |f| > 0 ==> ValidateAddAsWritten(f) == Some(WrongTypeOfArg("add", 1, f[0]))
  {
    if |f| > 0 {
      Types.NoBuiltinIsNumeric();
      assert !Fits(IsNumeric, f[0]);
    }
  }

  /** The integer type with the `Numeric` property the check asks for. */
  const NumericInt: Types.Type := Types.Type("integer", 4, Types.Primitive | Types.Numeric)

  /** The types as `add` evidently meant them: integers are numeric. */
  function IntendedType(t: Types.Type): Types.Type {
    if t == Types.TypeInt then NumericInt else t
  }

  function IsIntendedNumeric(t: Types.Type): bool { Types.HasProperty(IntendedType(t), Types.Numeric) }

  /** `FunctionAdd.Validate` with integers numeric: it accepts exactly the
      non-empty frames of integers. */
  function ValidateAdd(f: Frame): (r: Option<Error>)
    ensures r.None? <==> |f| > 0 && forall j :: 0 <= j < |f| ==> f[j].Int?
    ensures |f| == 0 ==> r == Some(TooFewArgs("add", 0, 1))
  {
    if |f| == 0 then Some(TooFewArgs(Label(Registry.Add), 0, 1))
    else
      var r := CheckItems(Label(Registry.Add), IsIntendedNumeric, f);
      assert forall v :: Fits(IsIntendedNumeric, v) <==> v.Int? by {
        Types.NoBuiltinIsNumeric();
      }
      r
  }

  /** The mathematical sum of the integers of a frame. */
  function Total(f: Frame): int {
    if |f| == 0 then 0 else (if f[0].Int? then f[0].i else 0) + Total(f[1..])
  }

  /** The loop of `FunctionAdd.Evaluate`: pops from the top and adds in
      64-bit arithmetic; a popped item that is not an integer fails the
      type assertion. */
  function AddDown(f: Frame, acc: int): (r: (Frame, Outcome<Value>))
    decreases |f|
  {
    if |f| == 0 then ([], Ok(Int(acc)))
    else
      var top := f[|f| - 1];
      if !top.Int? then (f[..|f| - 1], Fail(BadAssertion))
      else AddDown(f[..|f| - 1], Wrap64(top.i + acc))
  }

  /** `FunctionAdd.Evaluate`. */
  function EvalAdd(env: Environment, f: Frame): (r: Effect)
    ensures r.env == env
    ensures (forall j :: 0 <= j < |f| ==> f[j].Int?) ==> r.frame == [] && r.result == Ok(Int(Wrap64(Total(f))))
    ensures (exists j :: 0 <= j < |f| && !f[j].Int?) ==> r.result == Fail(BadAssertion)
  {
    var (rest, res) := AddDown(f, 0);
    AddDownSpec(f, 0);
    Effect(rest, env, res)
  }

  /** What the loop computes: the wrapped sum when every item is an
      integer, a failed assertion otherwise. */
  lemma {:induction false} AddDownSpec(f: Frame, acc: int)
    requires InInt64(acc)
    ensures (forall j :: 0 <= j < |f| ==> f[j].Int?) ==> AddDown(f, acc) == ([], Ok(Int(Wrap64(Total(f) + acc))))
    ensures (exists j :: 0 <= j < |f| && !f[j].Int?) ==> AddDown(f, acc).1 == Fail(BadAssertion)
    decreases |f|
  {
    if |f| > 0 {
      var top := f[|f| - 1];
      var init := f[..|f| - 1];
      TotalSnoc(f);
      if top.Int? {
        AddDownSpec(init, Wrap64(top.i + acc));
        if forall j :: 0 <= j < |f| ==> f[j].Int? {
          Wrap64Absorbs(Total(init), top.i + acc);
        } else {
          var j :| 0 <= j < |f| && !f[j].Int?;
          assert init[j] == f[j];
        }
      }
    }
  }

  /** The sum can be taken from the top as well. */
  lemma {:induction false} TotalSnoc(f: Frame)
    requires |f| > 0
    ensures Total(f) == Total(f[..|f| - 1]) + (if f[|f| - 1].Int? then f[|f| - 1].i else 0)
    decreases |f|
  {
    if |f| > 1 {
      assert f[1..][..|f[1..]| - 1] == f[..|f| - 1][1..];
      TotalSnoc(f[1..]);
    }
  }

  /** Wrapping part of a sum first does not change the wrapped sum. */
  lemma Wrap64Absorbs(a: int, b: int)
    ensures Wrap64(a + Wrap64(b)) == Wrap64(a + b)
  {
    var w := Wrap64(b);
    var r := Wrap64(a + w);
    var q1 := (r - (a + w)) / 0x1_0000_0000_0000_0000;
    var q2 := (w - b) / 0x1_0000_0000_0000_0000;
    assert r - (a + w) == 0x1_0000_0000_0000_0000 * q1;
    assert w - b == 0x1_0000_0000_0000_0000 * q2;
    assert r - (a + b) == 0x1_0000_0000_0000_0000 * (q1 + q2);
    Wrap64Unique(a + b, r, q1 + q2);
  }

  /** The wrapped value is the one 64-bit value that differs from the input
      by a multiple of 2^64. */
  lemma Wrap64Unique(x: int, r: int, q: int)
    requires InInt64(r) && r - x == 0x1_0000_0000_0000_0000 * q
    ensures r == Wrap64(x)
  {
    var w := Wrap64(x);
    var p := (w - x) / 0x1_0000_0000_0000_0000;
    assert w - x == 0x1_0000_0000_0000_0000 * p;
    assert r - w == 0x1_0000_0000_0000_0000 * (q - p);
  }

  // ---------------------------------------------------------------------
  // concat

  /** `FunctionConcat.Validate`: at least one item, all strings. */
  function ValidateConcat(f: Frame): (r: Option<Error>)
    ensures r.None? <==> |f| > 0 && forall j :: 0 <= j < |f| ==> f[j].Str?
    ensures |f| == 0 ==> r == Some(TooFewArgs("concat", 0, 1))
  {
    if |f| == 0 then Some(TooFewArgs(Label(Registry.Concat), 0, 1))
    else CheckItems(Label(Registry.Concat), IsStringType, f)
  }

  /** The texts of the items, bottom first. */
  function Texts(f: Frame): string
    requires forall j :: 0 <= j < |f| ==> Printable(f[j])
  {
    if |f| == 0 then "" else Values.String(f[0]) + Texts(f[1..])
  }

  /** The loop of `FunctionConcat.Evaluate`: pops from the top and puts
      each item's text in front of what it has. */
  function ConcatDown(f: Frame, acc: string): (r: (Frame, Outcome<Value>))
    requires forall j :: 0 <= j < |f| ==> Renderable(f[j])
    decreases |f|
  {
    if |f| == 0 then ([], Ok(Str(acc)))
    else
      var top := f[|f| - 1];
      assert Renderable(top);
      if top.Nil? then (f[..|f| - 1], Fail(NilDereference))
      else ConcatDown(f[..|f| - 1], Values.String(top) + acc)
  }

  /** `FunctionConcat.Evaluate`. */
  function EvalConcat(env: Environment, f: Frame): (r: Effect)
    requires forall j :: 0 <= j < |f| ==> Renderable(f[j])
    ensures r.env == env
  {
    var (rest, res) := ConcatDown(f, "");
    Effect(rest, env, res)
  }

  /** Popping from the top and prepending keeps the items in their order:
      the result is the texts joined bottom first. */
  lemma {:induction false} ConcatKeepsOrder(f: Frame, acc: string)
    requires forall j :: 0 <= j < |f| ==> Printable(f[j])
    ensures ConcatDown(f, acc) == ([], Ok(Str(Texts(f) + acc)))
    decreases |f|
  {
    if |f| > 0 {
      var top := f[|f| - 1];
      var init := f[..|f| - 1];
      assert Printable(top);
      assert forall j :: 0 <= j < |init| ==> init[j] == f[j];
      assert ConcatDown(f, acc) == ConcatDown(init, Values.String(top) + acc);
      ConcatKeepsOrder(init, Values.String(top) + acc);
      TextsSnoc(f);
      assert Texts(init) + (Values.String(top) + acc) == (Texts(init) + Values.String(top)) + acc;
    } else {
      assert Texts(f) + acc == acc;
    }
  }

  lemma {:induction false} TextsSnoc(f: Frame)
    requires |f| > 0 && forall j :: 0 <= j < |f| ==> Printable(f[j])
    ensures Texts(f) == Texts(f[..|f| - 1]) + Values.String(f[|f| - 1])
    decreases |f|
  {
    if |f| > 1 {
      assert f[1..][..|f[1..]| - 1] == f[..|f| - 1][1..];
      TextsSnoc(f[1..]);
    }
  }

  /** A validated `concat` yields the concatenation of its strings. */
  lemma ConcatResult(env: Environment, f: Frame)
    requires ValidateConcat(f).None?
    ensures EvalConcat(env, f) == Effect([], env, Ok(Str(Texts(f))))
  {
    assert forall j :: 0 <= j < |f| ==> Printable(f[j]);
    ConcatKeepsOrder(f, "");
    assert Texts(f) + "" == Texts(f);
  }

  // ---------------------------------------------------------------------
  // def

  /** `FunctionDef.Validate`: two or more items, the first a symbol. The
      hidden-name check runs, but its error is dropped. */
  function ValidateDef(f: Frame): (r: Option<Error>)
    ensures r.None? <==> |f| >= 2 && f[0].Symbol?
    ensures |f| < 2 ==> r == Some(WrongNumberOfArgs("def", |f|, 2))
  {
    if |f| < 2 then Some(WrongNumberOfArgs(Label(Registry.Def), |f|, 2))
    else
      var first := f[0];
      if !Fits(IsSymbolType, first) then Some(WrongTypeOfArg(Label(Registry.Def), 1, first))
      else
        var hidden := CheckVariableName(Label(Registry.Def), 1, first);
        if hidden.Some? then None else None
  }

  /** Two dictionaries with the same headers and, for every header, the same
      column hold the same table; the order of the column entries is
      Go's map order and carries no meaning. */
  predicate SameTable(d: Value, e: Value)
    requires d.Dict? && e.Dict?
  {
    d.header == e.header && forall k :: k in d.header ==> Lookup(d.columns, k) == Lookup(e.columns, k)
  }

  /** The row `def` reports. */
  function DefRow(first: Value, typeName: string, second: Value): Value {
    Dict(["Variable", "Type", "Value"],
         [Column("Variable", [first]), Column("Type", [Str(typeName)]), Column("Value", [second])])
  }

  /** `FunctionDef.Evaluate`: the top item is the value and the one below
      it the name, whatever the frame's size; the binding is made before
      the value is asked for its type. */
  function EvalDef(env: Environment, f: Frame): (r: Effect)
    requires Valid(env)
    ensures Valid(r.env)
    ensures |f| >= 2 ==> r.frame == f[..|f| - 2]
    ensures |f| >= 2 && f[|f| - 2].Symbol? ==>
              var name := f[|f| - 2].s;
              Names(r.env) == Names(env) + {name}
              && Get(r.env, name) == Some(f[|f| - 1])
              && forall n :: n != name ==> Get(r.env, n) == Get(env, n)
    ensures |f| >= 2 && f[|f| - 2].Symbol? && !f[|f| - 1].Nil? ==>
              r.result == Ok(DefRow(f[|f| - 2], TypeOf(f[|f| - 1]).value.name, f[|f| - 1]))
    ensures |f| >= 2 && f[|f| - 2].Symbol? && f[|f| - 1].Nil? ==> r.result == Fail(NilDereference)
    ensures (|f| < 2 || !f[|f| - 2].Symbol?) ==> r.env == env && r.result == Fail(BadAssertion)
  {
    var (second, f1) := Pop(f);
    var (first, f2) := Pop(f1);
    if !first.Symbol? then Effect(f2, env, Fail(BadAssertion))
    else
      var env1 := Bind(env, first.s, second);
      match TypeOf(second)
      case Fail(e) => Effect(f2, env1, Fail(e))
      case Ok(t) => Effect(f2, env1, Ok(DefRow(first, t.name, second)))
  }

  /** With more than two items, the binding is made from the top two, so a
      frame whose first item is a symbol can still fail the assertion, or
      bind a name other than the first. */
  lemma DefBindsTopTwo(env: Environment, a: string, b: string, c: Value)
    requires Valid(env) && !c.Nil?
    ensures var f := [Symbol(a), Symbol(b), c];
            ValidateDef(f).None?
            && EvalDef(env, f).frame == [Symbol(a)]
            && Get(EvalDef(env, f).env, b) == Some(c)
            && EvalDef(env, f).result.Ok?
  {
  }

  lemma DefExtraArgumentPanics(env: Environment, a: string, b: Value, c: Value)
    requires Valid(env) && !b.Symbol?
    ensures ValidateDef([Symbol(a), b, c]).None?
    ensures EvalDef(env, [Symbol(a), b, c]).result == Fail(BadAssertion)
  {
  }

  // ---------------------------------------------------------------------
  // resolve

  /** `FunctionResolve.Validate`: one character sequence that names a bound
      variable. */
  function ValidateResolve(env: Environment, f: Frame): (r: Option<Error>)
    ensures r.None? <==> |f| == 1 && f[0].CharSeq? && f[0].s in Names(env)
    ensures |f| == 1 && f[0].CharSeq? && f[0].s !in Names(env) ==>
              r == Some(Error(ErrorMessage("resolve", "variable '" + f[0].s + "' not defined")))
  {
    if |f| != 1 then Some(WrongNumberOfArgs(Label(Registry.Resolve), |f|, 1))
    else
      var last := Peek(f);
      match CheckOne(Label(Registry.Resolve), 1, IsCharSeqType, last)
      case Some(e) => Some(e)
      case None =>
        if Get(env, Values.String(last)).None? then
          Some(Error(ErrorMessage(Label(Registry.Resolve), "variable '" + Values.String(last) + "' not defined")))
        else None
  }

  /** `FunctionResolve.Evaluate`: the value bound to the top item's text. */
  function EvalResolve(env: Environment, f: Frame): (r: Effect)
    requires Renderable(Peek(f))
    ensures r.env == env && r.frame == Pop(f).1
    ensures Peek(f).Nil? ==> r.result == Fail(NilDereference)
    ensures !Peek(f).Nil? ==> (r.result.Ok? <==> Values.String(Peek(f)) in Names(env))
    ensures r.result.Ok? ==> Get(env, Values.String(Peek(f))) == Some(r.result.value)
  {
    var (last, rest) := Pop(f);
    if last.Nil? then Effect(rest, env, Fail(NilDereference))
    else
      match Get(env, Values.String(last))
      case Some(v) => Effect(rest, env, Ok(v))
      case None => Effect(rest, env, Fail(Error("(resolve) variable '" + Values.String(last) + "' not defined")))
  }

  /** Binding and then resolving a name gives the bound value back. */
  lemma BindThenResolve(env: Environment, name: string, v: Value)
    requires Valid(env)
    ensures ValidateResolve(Bind(env, name, v), [CharSeq(name)]).None?
    ensures EvalResolve(Bind(env, name, v), [CharSeq(name)]).result == Ok(v)
  {
  }

  // ---------------------------------------------------------------------
  // quote and eval (validation)

  /** `FunctionQuote.Validate`: one item, of the expression type id. */
  function ValidateQuote(f: Frame): (r: Option<Error>)
    ensures r.None? <==> |f| == 1 && f[0].SexpVal?
    ensures |f| != 1 ==> r == Some(WrongNumberOfArgs("quote", |f|, 1))
  {
    if |f| != 1 then Some(WrongNumberOfArgs(Label(Registry.QuoteFn), |f|, 1))
    else CheckOne(Label(Registry.QuoteFn), 1, HasSexpId, f[0])
  }

  /** `FunctionQuote.Evaluate`: the captured expression itself. */
  function EvalQuote(env: Environment, f: Frame): (r: Effect)
    ensures r.env == env && r.frame == Pop(f).1 && r.result == Ok(Peek(f))
  {
    var (sexp, rest) := Pop(f);
    Effect(rest, env, Ok(sexp))
  }

  /** `FunctionEval.Validate`: one item, of the expression type. */
  function ValidateEval(f: Frame): (r: Option<Error>)
    ensures r.None? <==> |f| == 1 && f[0].SexpVal?
    ensures |f| != 1 ==> r == Some(WrongNumberOfArgs("eval", |f|, 1))
  {
    if |f| != 1 then Some(WrongNumberOfArgs(Label(Registry.EvalFn), |f|, 1))
    else CheckOne(Label(Registry.EvalFn), 1, IsSexpType, f[0])
  }

  // ---------------------------------------------------------------------
  // dict and pair

  /** `FunctionDict.Validate`: at least one item, all dictionaries. */
  function ValidateDict(f: Frame): (r: Option<Error>)
    ensures r.None? <==> |f| > 0 && forall j :: 0 <= j < |f| ==> f[j].Dict?
    ensures |f| == 0 ==> r == Some(TooFewArgs("dict", 0, 1))
  {
    if |f| == 0 then Some(TooFewArgs(Label(Registry.DictFn), 0, 1))
    else CheckItems(Label(Registry.DictFn), IsDictType, f)
  }

  /** The loop of `FunctionDict.Evaluate`: each dictionary popped is merged
      into the one built so far, and its columns win. */
  function MergeDown(acc: Value, f: Frame): (r: Outcome<Value>)
    requires acc.Dict?
    ensures r.Ok? ==> r.value.Dict?
    decreases |f|
  {
    if |f| == 0 then Ok(acc)
    else
      var top := f[|f| - 1];
      if !top.Dict? then Fail(BadAssertion)
      else MergeDown(Merge(acc, top), f[..|f| - 1])
  }

  /** `FunctionDict.Evaluate`. */
  function EvalDict(env: Environment, f: Frame): (r: Effect)
    ensures r.env == env
    ensures |f| == 0 ==> r.result == Fail(Error(ErrorMessage("dict", "Wrong number of arguments")))
    ensures (forall j :: 0 <= j < |f| ==> f[j].Dict?) && |f| > 0 ==> r.frame == [] && r.result.Ok? && r.result.value.Dict?
    ensures (exists j :: 0 <= j < |f| && !f[j].Dict?) ==> r.result == Fail(BadAssertion)
  {
    if |f| == 0 then Effect(f, env, Fail(Error(ErrorMessage(Label(Registry.DictFn), "Wrong number of arguments"))))
    else
      var (top, rest) := Pop(f);
      MergeDownSpec(f);
      if !top.Dict? then Effect(rest, env, Fail(BadAssertion))
      else Effect([], env, MergeDown(top, rest))
  }

  /** The keys of every pair, bottom first. */
  function Headers(f: Frame): seq<string> {
    if |f| == 0 then [] else (if f[0].Dict? then f[0].header else []) + Headers(f[1..])
  }

  /** The column of a key in the lowest dictionary that has the key. */
  function Lowest(f: Frame, k: string): Option<seq<Value>> {
    if |f| == 0 then None
    else if f[0].Dict? && Lookup(f[0].columns, k).Some? then Lookup(f[0].columns, k)
    else Lowest(f[1..], k)
  }

  predicate AllDicts(f: Frame) {
    forall j :: 0 <= j < |f| ==> f[j].Dict?
  }

  /** A dictionary with a column for every header, as every dictionary the
      built-ins make has. */
  predicate Declared(d: Value) {
    d.Dict? && forall k :: k in d.header ==> Lookup(d.columns, k).Some?
  }

  predicate AllDeclared(f: Frame) {
    forall j :: 0 <= j < |f| ==> Declared(f[j])
  }

  /** What `dict` computes from dictionaries with declared columns: every
      key of every pair once, and for each key the column of the lowest
      dictionary that has it, so the earliest pair of the expression wins;
      the merge of the dictionaries from the top down. */
  lemma {:induction false} MergeDownColumns(acc: Value, f: Frame)
    requires Declared(acc) && AllDeclared(f)
    ensures MergeDown(acc, f).Ok? && Declared(MergeDown(acc, f).value)
    ensures forall k :: k in MergeDown(acc, f).value.header <==> k in acc.header || k in Headers(f)
    ensures Distinct(MergeDown(acc, f).value.header) || |f| == 0
    ensures forall k :: k in MergeDown(acc, f).value.header ==>
              Lookup(MergeDown(acc, f).value.columns, k) ==
                if Lowest(f, k).Some? then Lowest(f, k) else Lookup(acc.columns, k)
    decreases |f|
  {
    if |f| > 0 {
      var top := f[|f| - 1];
      var init := f[..|f| - 1];
      assert Declared(top);
      var m := Merge(acc, top);
      MergeSpec(acc, top);
      assert Declared(m);
      assert AllDeclared(init) by {
        forall j | 0 <= j < |init| ensures Declared(init[j]) {
          assert init[j] == f[j];
        }
      }
      MergeDownColumns(m, init);
      HeadersSnoc(f);
      LowestSnoc(f);
      var r := MergeDown(m, init);
      forall k ensures k in r.value.header <==> k in acc.header || k in Headers(f) {
        assert k in r.value.header <==> k in m.header || k in Headers(init);
        assert k in m.header <==> k in acc.header || k in top.header;
      }
      forall k | k in r.value.header
        ensures Lookup(r.value.columns, k) == if Lowest(f, k).Some? then Lowest(f, k) else Lookup(acc.columns, k)
      {
      }
      if |init| == 0 {
        assert r.value == m;
      }
    }
  }

  lemma {:induction false} HeadersSnoc(f: Frame)
    requires |f| > 0 && AllDeclared(f)
    ensures forall k :: k in Headers(f) <==> k in Headers(f[..|f| - 1]) || k in f[|f| - 1].header
    decreases |f|
  {
    if |f| > 1 {
      assert f[1..][..|f[1..]| - 1] == f[..|f| - 1][1..];
      HeadersSnoc(f[1..]);
    }
  }

  lemma {:induction false} LowestSnoc(f: Frame)
    requires |f| > 0 && AllDeclared(f)
    ensures forall k :: Lowest(f, k) ==
              if Lowest(f[..|f| - 1], k).Some? then Lowest(f[..|f| - 1], k)
              else Lookup(f[|f| - 1].columns, k)
    decreases |f|
  {
    if |f| > 1 {
      assert f[1..][..|f[1..]| - 1] == f[..|f| - 1][1..];
      LowestSnoc(f[1..]);
    }
  }

  /** The loop fails exactly when some item is not a dictionary. */
  lemma {:induction false} MergeDownFails(acc: Value, f: Frame)
    requires acc.Dict?
    ensures MergeDown(acc, f).Fail? <==> !AllDicts(f)
    ensures MergeDown(acc, f).Fail? ==> MergeDown(acc, f).error == BadAssertion
    decreases |f|
  {
    if |f| > 0 {
      var top := f[|f| - 1];
      if top.Dict? {
        MergeDownFails(Merge(acc, top), f[..|f| - 1]);
        if !AllDicts(f) {
          var j :| 0 <= j < |f| && !f[j].Dict?;
          assert f[..|f| - 1][j] == f[j];
        }
      }
    }
  }

  lemma MergeDownSpec(f: Frame)
    requires |f| > 0
    ensures f[|f| - 1].Dict? ==> (MergeDown(f[|f| - 1], f[..|f| - 1]).Fail? <==> !AllDicts(f))
    ensures f[|f| - 1].Dict? ==> MergeDown(f[|f| - 1], f[..|f| - 1]).Fail? ==> MergeDown(f[|f| - 1], f[..|f| - 1]).error == BadAssertion
  {
    if f[|f| - 1].Dict? {
      MergeDownFails(f[|f| - 1], f[..|f| - 1]);
      if !AllDicts(f[..|f| - 1]) {
        var j :| 0 <= j < |f| - 1 && !f[..|f| - 1][j].Dict?;
      }
    }
  }

  /** `FunctionPair.Validate`: exactly two items, the first a keyword. */
  function ValidatePair(f: Frame): (r: Option<Error>)
    ensures r.None? <==> |f| == 2 && f[0].Keyword?
    ensures |f| != 2 ==> r == Some(WrongNumberOfArgs("pair", |f|, 2))
  {
    if |f| != 2 then Some(WrongNumberOfArgs(Label(Registry.Pair), |f|, 2))
    else CheckOne(Label(Registry.Pair), 1, HasKeywordId, f[0])
  }

  /** `FunctionPair.Evaluate`: a one-column dictionary keyed by the
      keyword's text, holding the value. */
  function EvalPair(env: Environment, f: Frame): (r: Effect)
    ensures r.env == env
    ensures |f| >= 2 ==> r.frame == f[..|f| - 2]
    ensures |f| >= 2 && f[|f| - 2].Keyword? ==>
              var k := f[|f| - 2].s;
              r.result.Ok? && r.result.value.Dict? && r.result.value.header == [k]
              && Lookup(r.result.value.columns, k) == Some([f[|f| - 1]])
              && forall j :: j != k ==> Lookup(r.result.value.columns, j).None?
    ensures (|f| < 2 || !f[|f| - 2].Keyword?) ==> r.result == Fail(BadAssertion)
  {
    var (second, f1) := Pop(f);
    var (first, f2) := Pop(f1);
    if !first.Keyword? then Effect(f2, env, Fail(BadAssertion))
    else Effect(f2, env, Ok(Dict([first.s], [Column(first.s, [second])])))
  }

  /** The dictionary of `pair` is what `AddPair` builds on a fresh
      one-column dictionary. */
  lemma PairByAddPair(k: string, v: Value)
    ensures var d := AddPair(NewDictResult([k]), k, [v]);
            d.Ok? && SameTable(d.value, Dict([k], [Column(k, [v])]))
  {
    assert [] + [v] == [v];
  }

  // ---------------------------------------------------------------------
  // vec

  function IsVecItemType(t: Types.Type): bool {
    t.id == Types.TypeKeyword.id || t.id == Types.TypeString.id || t.id == Types.TypeInt.id
  }

  /** `FunctionVec.Validate`: at least one item, each a keyword, a string
      or an integer. */
  function ValidateVec(f: Frame): (r: Option<Error>)
    ensures r.None? <==> |f| > 0 && forall j :: 0 <= j < |f| ==> f[j].Keyword? || f[j].Str? || f[j].Int?
    ensures |f| == 0 ==> r == Some(TooFewArgs("vec", 0, 1))
  {
    if |f| == 0 then Some(TooFewArgs(Label(Registry.VecFn), 0, 1))
    else
      var r := CheckItems(Label(Registry.VecFn), IsVecItemType, f);
      assert forall v :: Fits(IsVecItemType, v) <==> v.Keyword? || v.Str? || v.Int?;
      r
  }

  /** The loop of `FunctionVec.Evaluate`: pops from the top and prepends. */
  function PrependDown(acc: Value, f: Frame): (r: Value)
    requires acc.Vec?
    ensures r.Vec?
    decreases |f|
  {
    if |f| == 0 then acc else PrependDown(PrependResult(acc, f[|f| - 1]), f[..|f| - 1])
  }

  /** Prepending while popping rebuilds the items in their order. */
  lemma {:induction false} PrependDownKeepsOrder(acc: Value, f: Frame)
    requires acc.Vec?
    ensures PrependDown(acc, f) == Vec(f + acc.items)
    decreases |f|
  {
    if |f| > 0 {
      var top := f[|f| - 1];
      var rest := f[..|f| - 1];
      assert PrependResult(acc, top) == Vec([top] + acc.items);
      assert PrependDown(acc, f) == PrependDown(Vec([top] + acc.items), rest);
      PrependDownKeepsOrder(Vec([top] + acc.items), rest);
      assert rest + [top] == f;
      assert rest + ([top] + acc.items) == (rest + [top]) + acc.items;
    }
  }

  /** `FunctionVec.Evaluate`: the vector of the frame's items, bottom
      first; the frame is emptied. */
  function EvalVec(env: Environment, f: Frame): (r: Effect)
    ensures r == Effect([], env, Ok(Vec(f)))
  {
    PrependDownKeepsOrder(Vec([]), f);
    assert f + [] == f;
    Effect([], env, Ok(PrependDown(Vec([]), f)))
  }

  // ---------------------------------------------------------------------
  // The furnishing functions: int, string, identifier, keyword.

  /** `FurnishInt.Validate`: one character sequence that `strconv.Atoi`
      accepts; otherwise the conversion's own error. */
  function ValidateInt(f: Frame): (r: Option<Error>)
    ensures r.None? <==> |f| == 1 && f[0].CharSeq? && Atoi(f[0].s).Some?
    ensures |f| == 1 && f[0].CharSeq? && Atoi(f[0].s).None? ==> r == Some(Error(AtoiError(f[0].s).value))
  {
    if |f| != 1 then Some(WrongNumberOfArgs(Label(Registry.IntFn), |f|, 1))
    else
      var last := Peek(f);
      match CheckOne(Label(Registry.IntFn), 1, IsCharSeqType, last)
      case Some(e) => Some(e)
      case None =>
        match AtoiError(last.s)
        case Some(m) => Some(Error(m))
        case None => None
  }

  /** `FurnishInt.Evaluate`: the integer of the popped text; the
      conversion's error is ignored here. */
  function EvalInt(env: Environment, f: Frame): (r: Effect)
    ensures r.env == env && r.frame == Pop(f).1
    ensures Peek(f).CharSeq? ==> r.result == Ok(Int(AtoiValue(Peek(f).s)))
    ensures !Peek(f).CharSeq? ==> r.result == Fail(BadAssertion)
  {
    var (last, rest) := Pop(f);
    if !last.CharSeq? then Effect(rest, env, Fail(BadAssertion))
    else Effect(rest, env, Ok(Int(AtoiValue(last.s))))
  }

  /** An integer literal evaluates to the integer it denotes. */
  lemma IntLiteral(env: Environment, i: int)
    requires InInt64(i)
    ensures ValidateInt([CharSeq(IntToString(i))]).None?
    ensures EvalInt(env, [CharSeq(IntToString(i))]).result == Ok(Int(i))
  {
    AtoiOfIntToString(i);
  }

  /** `FurnishString.Validate`: no item, or one character sequence. */
  function ValidateString(f: Frame): (r: Option<Error>)
    ensures r.None? <==> |f| == 0 || (|f| == 1 && f[0].CharSeq?)
    ensures |f| > 1 ==> r == Some(WrongNumberOfArgs("string", |f|, 1))
  {
    if |f| > 1 then Some(WrongNumberOfArgs(Label(Registry.StringFn), |f|, 1))
    else if |f| == 1 then CheckOne(Label(Registry.StringFn), 1, IsCharSeqType, Peek(f))
    else None
  }

  /** `FurnishString.Evaluate`: the popped text as a string when there is
      exactly one item; otherwise the empty string, popping nothing. */
  function EvalString(env: Environment, f: Frame): (r: Effect)
    ensures r.env == env
    ensures |f| == 1 && f[0].CharSeq? ==> r.frame == [] && r.result == Ok(Str(f[0].s))
    ensures |f| == 1 && !f[0].CharSeq? ==> r.result == Fail(BadAssertion)
    ensures |f| != 1 ==> r.frame == f && r.result == Ok(Str(""))
  {
    if |f| == 1 then
      var (last, rest) := Pop(f);
      if !last.CharSeq? then Effect(rest, env, Fail(BadAssertion))
      else Effect(rest, env, Ok(Str(last.s)))
    else Effect(f, env, Ok(Str("")))
  }

  /** The check shared by `identifier` and `keyword`: one character
      sequence. */
  function ValidateOneCharSeq(b: Registry.Builtin, f: Frame): (r: Option<Error>)
    ensures r.None? <==> |f| == 1 && f[0].CharSeq?
    ensures |f| != 1 ==> r == Some(WrongNumberOfArgs(Registry.Symbol(b), |f|, 1))
  {
    if |f| != 1 then Some(WrongNumberOfArgs(Label(b), |f|, 1))
    else CheckOne(Label(b), 1, IsCharSeqType, Peek(f))
  }

  /** `FurnishIdentifier.Evaluate`: the popped text as a symbol. */
  function EvalIdentifier(env: Environment, f: Frame): (r: Effect)
    ensures r.env == env && r.frame == Pop(f).1
    ensures Peek(f).CharSeq? ==> r.result == Ok(Symbol(Peek(f).s))
    ensures !Peek(f).CharSeq? ==> r.result == Fail(BadAssertion)
  {
    var (last, rest) := Pop(f);
    if !last.CharSeq? then Effect(rest, env, Fail(BadAssertion))
    else Effect(rest, env, Ok(Symbol(last.s)))
  }

  /** `FurnishKeyword.Evaluate`: the popped text as a keyword. */
  function EvalKeyword(env: Environment, f: Frame): (r: Effect)
    ensures r.env == env && r.frame == Pop(f).1
    ensures Peek(f).CharSeq? ==> r.result == Ok(Keyword(Peek(f).s))
    ensures !Peek(f).CharSeq? ==> r.result == Fail(BadAssertion)
  {
    var (last, rest) := Pop(f);
    if !last.CharSeq? then Effect(rest, env, Fail(BadAssertion))
    else Effect(rest, env, Ok(Keyword(last.s)))
  }

  /** A furnished value renders as the text it was furnished from. */
  lemma FurnishedRendersText(env: Environment, s: string)
    ensures Values.String(EvalString(env, [CharSeq(s)]).result.value) == s
    ensures Values.String(EvalIdentifier(env, [CharSeq(s)]).result.value) == s
    ensures Values.String(EvalKeyword(env, [CharSeq(s)]).result.value) == s
  {
  }

  // ---------------------------------------------------------------------
  // root and comment

  /** `FunctionRoot.Validate`: at least one item. */
  function ValidateRoot(f: Frame): (r: Option<Error>)
    ensures r.None? <==> |f| > 0
    ensures |f| == 0 ==> r == Some(WrongNumberOfArgs("root", 0, 1))
  {
    if |f| == 0 then Some(WrongNumberOfArgs(Label(Registry.Root), |f|, 1)) else None
  }

  /** `FunctionRoot.Evaluate` and `FunctionComment.Evaluate`: the top item,
      popped; nil when there is none. */
  function EvalTop(env: Environment, f: Frame): (r: Effect)
    ensures r.env == env && r.result.Ok?
    ensures |f| > 0 ==> r.result.value == f[|f| - 1] && r.frame + [f[|f| - 1]] == f
    ensures |f| == 0 ==> r.result.value == Nil && r.frame == f
  {
    var (top, rest) := Pop(f);
    Effect(rest, env, Ok(top))
  }

  // ---------------------------------------------------------------------
  // bindings and tidy

  /** The rows of `FunctionBindings.Evaluate`, one per binding: the name
      and the type name of the value. A nil value panics. */
  function BindingRows(bs: seq<Binding>): (r: Outcome<(seq<Value>, seq<Value>)>)
    ensures r.Fail? <==> exists i :: 0 <= i < |bs| && bs[i].value.Nil?
    ensures r.Fail? ==> r.error == NilDereference
    ensures r.Ok? ==> |r.value.0| == |bs| == |r.value.1|
    ensures r.Ok? ==> forall i :: 0 <= i < |bs| ==>
              r.value.0[i] == Str(bs[i].name) && r.value.1[i] == Str(TypeOf(bs[i].value).value.name)
    decreases |bs|
  {
    if |bs| == 0 then Ok(([], []))
    else
      match TypeOf(bs[0].value)
      case Fail(e) => Fail(e)
      case Ok(t) =>
        var rest :- BindingRows(bs[1..]);
        Ok(([Str(bs[0].name)] + rest.0, [Str(t.name)] + rest.1))
  }

  /** `FunctionBindings.Evaluate`: a two-column table of the variables and
      their types; the frame and the environment are left alone. */
  function EvalBindings(env: Environment, f: Frame): (r: Effect)
    ensures r.env == env && r.frame == f
  {
    match BindingRows(env.bindings)
    case Fail(e) => Effect(f, env, Fail(e))
    case Ok((names, types)) =>
      Effect(f, env, Ok(Dict(["Variable", "Type"], [Column("Variable", names), Column("Type", types)])))
  }

  /** Two columns, one row per binding: every bound name, each next to
      the name of its value's type. */
  ghost predicate TypeTable(env: Environment, names: seq<Value>, types: seq<Value>) {
    |names| == |types| == |env.bindings|
    && (forall n :: n in Names(env) <==> Str(n) in names)
    && forall i :: 0 <= i < |names| ==>
         names[i].Str? && Get(env, names[i].s).Some? && TypeOf(Get(env, names[i].s).value).Ok?
         && types[i] == Str(TypeOf(Get(env, names[i].s).value).value.name)
  }

  /** The table lists every bound name exactly once, next to its value's
      type name. */
  lemma BindingsListsEveryName(env: Environment, f: Frame)
    requires Valid(env) && forall n :: n in Names(env) ==> !Get(env, n).value.Nil?
    ensures var r := EvalBindings(env, f).result;
            r.Ok? && r.value.header == ["Variable", "Type"]
            && Lookup(r.value.columns, "Variable").Some? && Lookup(r.value.columns, "Type").Some?
            && TypeTable(env, Lookup(r.value.columns, "Variable").value, Lookup(r.value.columns, "Type").value)
  {
    RowsTable(env);
    var rows := BindingRows(env.bindings).value;
    var cols := [Column("Variable", rows.0), Column("Type", rows.1)];
    assert Lookup(cols, "Variable") == Some(rows.0);
    assert Lookup(cols[1..], "Type") == Some(rows.1);
  }

  /** The rows of an environment without nil values form its type table. */
  lemma RowsTable(env: Environment)
    requires Valid(env) && forall n :: n in Names(env) ==> !Get(env, n).value.Nil?
    ensures BindingRows(env.bindings).Ok? && TypeTable(env, BindingRows(env.bindings).value.0, BindingRows(env.bindings).value.1)
  {
    forall i | 0 <= i < |env.bindings| ensures !env.bindings[i].value.Nil? && Get(env, env.bindings[i].name) == Some(env.bindings[i].value) {
      BoundAt(env, i);
    }
    assert BindingRows(env.bindings).Ok?;
    var rows := BindingRows(env.bindings).value;
    forall i | 0 <= i < |rows.0|
      ensures rows.0[i].Str? && Get(env, rows.0[i].s).Some? && TypeOf(Get(env, rows.0[i].s).value).Ok?
              && rows.1[i] == Str(TypeOf(Get(env, rows.0[i].s).value).value.name)
    {
      BoundAt(env, i);
      var v := env.bindings[i].value;
      assert Get(env, rows.0[i].s) == Some(v) && !v.Nil?;
    }
    forall n ensures n in Names(env) <==> Str(n) in rows.0 {
      if n in Names(env) {
        NameAt(env, n);
        var i :| 0 <= i < |env.bindings| && env.bindings[i].name == n;
        assert rows.0[i] == Str(n);
      }
      if Str(n) in rows.0 {
        var i :| 0 <= i < |rows.0| && rows.0[i] == Str(n);
        BoundAt(env, i);
      }
    }
  }

  /** The binding at a position is the one `Get` finds. */
  lemma {:induction false} BoundAt(env: Environment, i: nat)
    requires Valid(env) && i < |env.bindings|
    ensures Get(env, env.bindings[i].name) == Some(env.bindings[i].value)
    ensures env.bindings[i].name in Names(env)
    decreases i
  {
    if i > 0 {
      var tail := Environment(env.bindings[1..]);
      BoundAt(tail, i - 1);
      assert env.bindings[0].name != env.bindings[i].name;
    }
  }

  lemma {:induction false} NameAt(env: Environment, n: string)
    requires n in Names(env)
    ensures exists i :: 0 <= i < |env.bindings| && env.bindings[i].name == n
    decreases |env.bindings|
  {
    if env.bindings[0].name != n {
      var tail := Environment(env.bindings[1..]);
      NameAt(tail, n);
      var i :| 0 <= i < |tail.bindings| && tail.bindings[i].name == n;
      assert env.bindings[i + 1].name == n;
    }
  }

  /** `FunctionTidy.Evaluate`: the environment is emptied. */
  function EvalTidy(env: Environment, f: Frame): (r: Effect)
    ensures r.frame == f && r.result == Ok(Empty)
    ensures Valid(r.env) && forall n :: Get(r.env, n).None?
  {
    Effect(f, Tidy(env), Ok(Empty))
  }

  // ---------------------------------------------------------------------
  // desc

  /** `FunctionDesc.Validate`: no item, or one keyword. More than one item
      is reported as too many, in the "at least" wording. */
  function ValidateDesc(f: Frame): (r: Option<Error>)
    ensures r.None? <==> |f| == 0 || (|f| == 1 && f[0].Keyword?)
    ensures |f| > 1 ==> r == Some(TooManyArgs("desc", |f|, 1))
  {
    if |f| > 1 then Some(TooManyArgs(Label(Registry.Desc), |f|, 1))
    else if |f| == 1 && !Fits(IsKeywordType, Peek(f)) then Some(WrongTypeOfArg(Label(Registry.Desc), 1, Peek(f)))
    else None
  }

  /** The row describing one built-in. */
  function DescRow(b: Registry.Builtin): Value {
    var (usage, text) := Registry.Describe(b);
    Dict(["Command", "Description"], [Column("Command", [Str(usage)]), Column("Description", [Str(text)])])
  }

  /** The table of every built-in, in the registry's order; Go visits its
      map in an unspecified order, so only the rows, not their order, are
      part of the contract below. */
  function DescAll(reg: seq<Registry.Builtin>): (r: (seq<Value>, seq<Value>))
    ensures |r.0| == |reg| == |r.1|
    ensures forall i :: 0 <= i < |reg| ==>
              r.0[i] == Str(Registry.Describe(reg[i]).0) && r.1[i] == Str(Registry.Describe(reg[i]).1)
  {
    (seq(|reg|, i requires 0 <= i < |reg| => Str(Registry.Describe(reg[i]).0)),
     seq(|reg|, i requires 0 <= i < |reg| => Str(Registry.Describe(reg[i]).1)))
  }

  /** The description of one function, looked up under `key`. */
  function DescribeOne(key: string): (r: Outcome<Value>)
    ensures r.Ok? <==> Registry.IsFunction(Registry.Builtins, key)
    ensures r.Fail? ==> r == Fail(Error(ErrorMessage("desc", "could not find functino '" + key + "'")))
  {
    match Registry.Find(Registry.Builtins, key)
    case None => Fail(Error(ErrorMessage(Label(Registry.Desc), "could not find functino '" + key + "'")))
    case Some(b) => Ok(DescRow(b))
  }

  /** `FunctionDesc.Evaluate` as written: the lookup key is the keyword's
      whole text, colon included. */
  function EvalDescAsWritten(env: Environment, f: Frame): (r: Effect)
    requires Renderable(Peek(f))
    ensures r.env == env
  {
    if |f| == 0 then
      var (cmds, descs) := DescAll(Registry.Builtins);
      Effect(f, env, Ok(Dict(["Command", "Description"], [Column("Command", cmds), Column("Description", descs)])))
    else
      var (last, rest) := Pop(f);
      if last.Nil? then Effect(rest, env, Fail(NilDereference))
      else Effect(rest, env, DescribeOne(Values.String(last)))
  }

  /** A keyword's text always starts with ':', and no symbol does, so as
      written `desc` finds no function for any keyword the lexer makes. */
  lemma DescAsWrittenNeverFinds(env: Environment, k: string)
    requires HasPrefix(k, ":")
    ensures ValidateDesc([Keyword(k)]).None?
    ensures EvalDescAsWritten(env, [Keyword(k)]).result
            == Fail(Error(ErrorMessage("desc", "could not find functino '" + k + "'")))
  {
    assert Values.String(Keyword(k)) == k;
    var found := Registry.Find(Registry.Builtins, k);
    if found.Some? {
      Registry.SymbolNotKeyword(found.value);
    }
  }

  /** The key as evidently intended: the keyword's text without its ':'. */
  function DescKey(s: string): (key: string)
    ensures HasPrefix(s, ":") ==> ":" + key == s
    ensures !HasPrefix(s, ":") ==> key == s
  {
    if HasPrefix(s, ":") then s[1..] else s
  }

  /** `FunctionDesc.Evaluate` with the keyword's ':' removed before the
      lookup; everything else as written. */
  function EvalDesc(env: Environment, f: Frame): (r: Effect)
    requires Renderable(Peek(f))
    ensures r.env == env
    ensures |f| == 0 ==> r.frame == f && r.result.Ok? && r.result.value.Dict?
                         && r.result.value.header == ["Command", "Description"]
    ensures |f| > 0 && !Peek(f).Nil? ==> r.frame == Pop(f).1 && r.result == DescribeOne(DescKey(Values.String(Peek(f))))
  {
    if |f| == 0 then
      var (cmds, descs) := DescAll(Registry.Builtins);
      Effect(f, env, Ok(Dict(["Command", "Description"], [Column("Command", cmds), Column("Description", descs)])))
    else
      var (last, rest) := Pop(f);
      if last.Nil? then Effect(rest, env, Fail(NilDereference))
      else Effect(rest, env, DescribeOne(DescKey(Values.String(last))))
  }

  /** With the ':' removed, `(desc :name)` describes exactly the built-in
      called `name`. */
  lemma DescFindsEveryBuiltin(env: Environment, b: Registry.Builtin)
    ensures EvalDesc(env, [Keyword(":" + Registry.Symbol(b))]).result == Ok(DescRow(b))
  {
    var k := ":" + Registry.Symbol(b);
    var f := [Keyword(k)];
    assert Pop(f) == (Keyword(k), []);
    assert Values.String(Keyword(k)) == k;
    assert DescKey(k) == Registry.Symbol(b);
    DescribesBuiltin(b);
  }

  lemma DescribesBuiltin(b: Registry.Builtin)
    ensures DescribeOne(Registry.Symbol(b)) == Ok(DescRow(b))
  {
    Registry.InitialRegistry();
  }

  /** Usage and description columns that hold one row for each built-in
      and nothing else. */
  predicate ListsEveryBuiltin(cmds: seq<Value>, descs: seq<Value>) {
    |cmds| == |descs| == 18
    && (forall b: Registry.Builtin :: HasRow(cmds, descs, b))
    && forall i :: 0 <= i < 18 ==> RowOfSome(cmds, descs, i)
  }

  predicate HasRow(cmds: seq<Value>, descs: seq<Value>, b: Registry.Builtin)
    requires |cmds| == |descs| == 18
  {
    exists i :: 0 <= i < 18 && cmds[i] == Str(Registry.Describe(b).0) && descs[i] == Str(Registry.Describe(b).1)
  }

  predicate RowOfSome(cmds: seq<Value>, descs: seq<Value>, i: int)
    requires |cmds| == |descs| == 18 && 0 <= i < 18
  {
    exists b: Registry.Builtin :: cmds[i] == Str(Registry.Describe(b).0) && descs[i] == Str(Registry.Describe(b).1)
  }

  /** Without an argument, `desc` lists every built-in's usage and
      description, each exactly once. */
  lemma DescListsEveryBuiltin(env: Environment)
    ensures var r := EvalDesc(env, []).result;
            r.Ok? && Lookup(r.value.columns, "Command").Some? && Lookup(r.value.columns, "Description").Some?
            && ListsEveryBuiltin(Lookup(r.value.columns, "Command").value, Lookup(r.value.columns, "Description").value)
  {
    var (cmds, descs) := DescAll(Registry.Builtins);
    assert |Registry.Builtins| == 18;
    var r := EvalDesc(env, []).result.value;
    assert r == Dict(["Command", "Description"], [Column("Command", cmds), Column("Description", descs)]);
    assert Lookup(r.columns, "Command") == Some(cmds);
    assert Lookup(r.columns, "Description") == Some(descs);
    forall b: Registry.Builtin ensures HasRow(cmds, descs, b) {
      var i := Registry.IndexOf(b);
      assert cmds[i] == Str(Registry.Describe(b).0);
    }
    forall i | 0 <= i < 18 ensures RowOfSome(cmds, descs, i) {
      var b := Registry.Builtins[i];
      assert cmds[i] == Str(Registry.Describe(b).0);
    }
  }

  // ---------------------------------------------------------------------
  // Dispatch (eval/function.go): the registry maps each label to its
  // built-in; `Validate` and `Evaluate` call the one found.

  /** What evaluating needs beyond a valid environment: the texts the
      built-in reads can be computed. Validation establishes it. */
  predicate Evaluable(b: Registry.Builtin, f: Frame) {
    match b
    case Concat => forall j :: 0 <= j < |f| ==> Renderable(f[j])
    case Resolve => Renderable(Peek(f))
    case Desc => Renderable(Peek(f))
    case _ => true
  }

  /** The built-in's `Validate`. `add` is checked as evidently intended;
      `ValidateAddAsWritten` is the check as written. */
  function Validate(b: Registry.Builtin, env: Environment, f: Frame): (r: Option<Error>)
    ensures r.None? ==> Evaluable(b, f)
  {
    match b
    case Comment => None
    case Concat => ValidateConcat(f)
    case Desc => ValidateDesc(f)
    case Root => ValidateRoot(f)
    case Def => ValidateDef(f)
    case Bindings => None
    case Resolve => ValidateResolve(env, f)
    case Tidy => None
    case Pair => ValidatePair(f)
    case DictFn => ValidateDict(f)
    case VecFn => ValidateVec(f)
    case Add => ValidateAdd(f)
    case IdentifierFn => ValidateOneCharSeq(b, f)
    case StringFn => ValidateString(f)
    case IntFn => ValidateInt(f)
    case KeywordFn => ValidateOneCharSeq(b, f)
    case QuoteFn => ValidateQuote(f)
    case EvalFn => ValidateEval(f)
  }

  /** The built-in's `Evaluate`, for every built-in but `eval`, which needs
      the evaluator. Only `def` and `tidy` change the environment. `desc`
      looks its keyword up without the ':' as evidently intended;
      `EvalDescAsWritten` is the lookup as written. */
  function Evaluate(b: Registry.Builtin, env: Environment, f: Frame): (r: Effect)
    requires b != Registry.EvalFn && Valid(env) && Evaluable(b, f)
    ensures Valid(r.env)
    ensures b != Registry.Def && b != Registry.Tidy ==> r.env == env
  {
    match b
    case Comment => EvalTop(env, f)
    case Concat => EvalConcat(env, f)
    case Desc => EvalDesc(env, f)
    case Root => EvalTop(env, f)
    case Def => EvalDef(env, f)
    case Bindings => EvalBindings(env, f)
    case Resolve => EvalResolve(env, f)
    case Tidy => EvalTidy(env, f)
    case Pair => EvalPair(env, f)
    case DictFn => EvalDict(env, f)
    case VecFn => EvalVec(env, f)
    case Add => EvalAdd(env, f)
    case IdentifierFn => EvalIdentifier(env, f)
    case StringFn => EvalString(env, f)
    case IntFn => EvalInt(env, f)
    case KeywordFn => EvalKeyword(env, f)
    case QuoteFn => EvalQuote(env, f)
  }

  /** The dispatch runs the corrected `add`, not the one as written:
      `(add 1 2)` passes validation, where the code as written rejects it. */
  lemma AddDispatchIsCorrected(env: Environment)
    ensures Validate(Registry.Add, env, [Int(1), Int(2)]).None?
    ensures ValidateAddAsWritten([Int(1), Int(2)]).Some?
  {
    var f := [Int(1), Int(2)];
    assert forall j :: 0 <= j < |f| ==> f[j].Int?;
    assert ValidateAdd(f).None?;
    AddAlwaysRejected(f);
  }

  /** The dispatch runs the corrected `desc`, not the one as written:
      `(desc :name)` describes the built-in called `name`, where the code
      as written fails to find it. */
  lemma DescDispatchIsCorrected(env: Environment, b: Registry.Builtin)
    requires Valid(env)
    ensures Evaluate(Registry.Desc, env, [Keyword(":" + Registry.Symbol(b))]).result == Ok(DescRow(b))
    ensures EvalDescAsWritten(env, [Keyword(":" + Registry.Symbol(b))]).result.Fail?
  {
    var k := ":" + Registry.Symbol(b);
    assert HasPrefix(k, ":");
    DescFindsEveryBuiltin(env, b);
    DescAsWrittenNeverFinds(env, k);
  }

  /** After a successful validation, evaluation fails only where the Go
      code panics or reports a lookup error: `def` whose top two items are
      not a symbol and a value (possible when it has more than two), or
      whose value is nil; `bindings` with a nil value bound; and `desc`
      asked for a name no built-in has. */
  lemma ValidatedEvaluationSucceeds(b: Registry.Builtin, env: Environment, f: Frame)
    requires b != Registry.EvalFn && Valid(env) && Validate(b, env, f).None?
    ensures Evaluate(b, env, f).result.Fail? ==>
              (b == Registry.Def && (!f[|f| - 2].Symbol? || f[|f| - 1].Nil?))
              || (b == Registry.Bindings && exists i :: 0 <= i < |env.bindings| && env.bindings[i].value.Nil?)
              || (b == Registry.Desc && |f| == 1)
  {
    match b
    case Concat => ConcatResult(env, f);
    case Resolve => assert Values.String(f[0]) == f[0].s;
    case Add => assert forall j :: 0 <= j < |f| ==> f[j].Int?;
    case DictFn => assert forall j :: 0 <= j < |f| ==> f[j].Dict?;
    case _ =>
  }
}
