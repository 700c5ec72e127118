/** Evaluation results (eval/result.go). Go's `Result` interface becomes one
    datatype with a constructor per implementation, plus `Nil` for the nil
    interface value that a pop from an empty frame yields. No built-in
    function mutates a result in place, so value semantics are faithful. */
module Values {

  import opened Outcomes
  import opened Text
  import Sexpr
  import Types

  /** One entry of a dictionary's `Values` map: a key and its column. The
      map is kept as an association list whose first entry for a key is the
      one that counts. */
  datatype Column = Column(key: string, items: seq<Value>)

  datatype Value =
    | Nil                                              // the nil `Result`
    | CharSeq(s: string)                               // CharSequenceResult
    | Symbol(s: string)                                // SymbolResult
    | Int(i: int)                                      // IntResult
    | Str(s: string)                                   // StringResult
    | Keyword(s: string)                               // KeyWordResult
    | Dict(header: seq<string>, columns: seq<Column>)  // DictResult
    | Vec(items: seq<Value>)                           // VecResult
    | Empty                                            // EmptyResult
    | SexpVal(e: Sexpr.Sexp)                           // SexpressionResult

  /** Calling a method on the nil interface. */
  const NilDereference: Error := Panic("invalid memory address or nil pointer dereference")

  /** A failed unchecked type assertion such as `item.(*IntResult)`. */
  const BadAssertion: Error := Panic("interface conversion: unexpected Result implementation")

  /** `Type()`. */
  function TypeOf(v: Value): (r: Outcome<Types.Type>)
    ensures r.Ok? <==> !v.Nil?
  {
    match v
    case Nil => Fail(NilDereference)
    case CharSeq(_) => Ok(Types.TypeCharSequence)
    case Symbol(_) => Ok(Types.TypeSymbol)
    case Int(_) => Ok(Types.TypeInt)
    case Str(_) => Ok(Types.TypeString)
    case Keyword(_) => Ok(Types.TypeKeyword)
    case Dict(_, _) => Ok(Types.TypeDictionary)
    case Vec(_) => Ok(Types.TypeVector)
    case Empty => Ok(Types.TypeNil)
    case SexpVal(_) => Ok(Types.TypeSexpression)
  }

  /** Two results share a type exactly when they come from the same
      implementation, and the type ids tell the implementations apart too;
      the built-in functions rely on this when they check a type or a type
      id and then assert the implementation. */
  lemma TypeDeterminesVariant(v: Value, w: Value)
    requires TypeOf(v).Ok? && TypeOf(w).Ok?
    ensures TypeOf(v) == TypeOf(w) <==> v.Nil? == w.Nil? && v.CharSeq? == w.CharSeq? && v.Symbol? == w.Symbol?
                                        && v.Int? == w.Int? && v.Str? == w.Str? && v.Keyword? == w.Keyword?
                                        && v.Dict? == w.Dict? && v.Vec? == w.Vec? && v.Empty? == w.Empty?
                                        && v.SexpVal? == w.SexpVal?
    ensures TypeOf(v).value.id == TypeOf(w).value.id <==> TypeOf(v) == TypeOf(w)
  {
  }

  /** No result is of the "unknown" type, and the empty result is the only
      one of type nil. */
  lemma NoResultIsUnknown(v: Value)
    ensures TypeOf(v) != Ok(Types.TypeUnknown)
    ensures TypeOf(v) == Ok(Types.TypeNil) <==> v.Empty?
  {
  }

  // ---------------------------------------------------------------------
  // Dictionary columns.

  /** The column stored under `k`, as a Go map lookup. */
  function Lookup(cols: seq<Column>, k: string): (r: Option<seq<Value>>)
    ensures r.Some? <==> exists i :: 0 <= i < |cols| && cols[i].key == k
    decreases |cols|
  {
    if |cols| == 0 then None
    else if cols[0].key == k then Some(cols[0].items)
    else Lookup(cols[1..], k)
  }

  /** Map assignment `m[k] = items`: the first entry for `k` is replaced, or
      a new entry is added at the end. */
  function Put(cols: seq<Column>, k: string, items: seq<Value>): (r: seq<Column>)
    ensures Lookup(r, k) == Some(items)
    ensures forall j :: j != k ==> Lookup(r, j) == Lookup(cols, j)
    decreases |cols|
  {
    if |cols| == 0 then [Column(k, items)]
    else if cols[0].key == k then [Column(k, items)] + cols[1..]
    else
      var rest := Put(cols[1..], k, items);
      assert forall j :: j != k && j != cols[0].key ==> Lookup([cols[0]] + rest, j) == Lookup(rest, j);
      [cols[0]] + rest
  }

  /** The map built by `NewDictResult`: an empty column per header. */
  function FreshColumns(head: seq<string>): (r: seq<Column>)
    ensures forall k :: Lookup(r, k) == if k in head then Some([]) else None
    decreases |head|
  {
    if |head| == 0 then [] else Put(FreshColumns(head[..|head| - 1]), head[|head| - 1], [])
  }

  /** `NewDictResult`: the headers in the given order, each with an empty
      column, and no other column. */
  function NewDictResult(head: seq<string>): (r: Value)
    ensures r.Dict? && r.header == head
    ensures forall k :: Lookup(r.columns, k) == if k in head then Some([]) else None
  {
    Dict(head, FreshColumns(head))
  }

  /** `AddPair`: appends to an existing column; a missing column is an
      error and nothing changes. */
  function AddPair(d: Value, k: string, vs: seq<Value>): (r: Outcome<Value>)
    requires d.Dict?
    ensures r.Fail? <==> Lookup(d.columns, k).None?
    ensures r.Fail? ==> r.error == Error("key '" + k + "' not present")
    ensures r.Ok? ==> r.value.Dict? && r.value.header == d.header
                      && Lookup(r.value.columns, k) == Some(Lookup(d.columns, k).value + vs)
                      && forall j :: j != k ==> Lookup(r.value.columns, j) == Lookup(d.columns, j)
  {
    match Lookup(d.columns, k)
    case None => Fail(Error("key '" + k + "' not present"))
    case Some(items) => Ok(Dict(d.header, Put(d.columns, k, items + vs)))
  }

  /** The headers with later duplicates removed, as the `hmap` loop of
      `Merge` keeps them: the first occurrence of each name, in order. */
  function Dedup(s: seq<string>): (r: seq<string>)
    decreases |s|
  {
    if |s| == 0 then []
    else
      var init := Dedup(s[..|s| - 1]);
      if s[|s| - 1] in init then init else init + [s[|s| - 1]]
  }

  predicate Distinct(s: seq<string>) {
    forall i, j :: 0 <= i < j < |s| ==> s[i] != s[j]
  }

  /** `Dedup` keeps every name and repeats none. */
  lemma {:induction false} DedupSpec(s: seq<string>)
    ensures Distinct(Dedup(s))
    ensures forall x :: x in Dedup(s) <==> x in s
    decreases |s|
  {
    if |s| > 0 {
      DedupSpec(s[..|s| - 1]);
      assert forall x :: x in s <==> x in s[..|s| - 1] || x == s[|s| - 1];
    }
  }

  /** Deduplicating a list that already has no repeats changes nothing. */
  lemma {:induction false} DedupDistinct(s: seq<string>)
    requires Distinct(s)
    ensures Dedup(s) == s
    decreases |s|
  {
    if |s| > 0 {
      DedupDistinct(s[..|s| - 1]);
      DedupSpec(s[..|s| - 1]);
    }
  }

  /** The names of `b` that `a` does not have, in `b`'s order, first
      occurrences only. */
  function Fresh(a: seq<string>, b: seq<string>): seq<string>
    decreases |b|
  {
    if |b| == 0 then []
    else
      var init := Fresh(a, b[..|b| - 1]);
      if b[|b| - 1] in a || b[|b| - 1] in init then init else init + [b[|b| - 1]]
  }

  /** Deduplicating `a + b` keeps `a`'s distinct names in order and then
      `b`'s new ones. */
  lemma {:induction false} DedupAppend(a: seq<string>, b: seq<string>)
    requires Distinct(a)
    ensures Dedup(a + b) == a + Fresh(a, b)
    decreases |b|
  {
    if |b| == 0 {
      assert a + b == a;
      DedupDistinct(a);
    } else {
      var b0 := b[..|b| - 1];
      assert (a + b)[..|a + b| - 1] == a + b0;
      DedupAppend(a, b0);
      var x := b[|b| - 1];
      assert x in a + Fresh(a, b0) <==> x in a || x in Fresh(a, b0);
    }
  }

  /** The columns of `Merge`: for every header, other's column when other
      has one, otherwise r's. */
  function MergeColumns(headers: seq<string>, base: seq<Column>, r: seq<Column>, other: seq<Column>): (cs: seq<Column>)
    ensures forall k :: Lookup(cs, k) ==
              (if k in headers && Lookup(other, k).Some? then Lookup(other, k)
               else if k in headers && Lookup(r, k).Some? then Lookup(r, k)
               else Lookup(base, k))
    decreases |headers|
  {
    if |headers| == 0 then base
    else
      var h := headers[|headers| - 1];
      var cs0 := MergeColumns(headers[..|headers| - 1], base, r, other);
      var cs1 := if Lookup(r, h).Some? then Put(cs0, h, Lookup(r, h).value) else cs0;
      if Lookup(other, h).Some? then Put(cs1, h, Lookup(other, h).value) else cs1
  }

  /** `Merge`. */
  function Merge(r: Value, other: Value): (d: Value)
    requires r.Dict? && other.Dict?
    ensures d.Dict?
  {
    var headers := Dedup(r.header + other.header);
    Dict(headers, MergeColumns(headers, FreshColumns(headers), r.columns, other.columns))
  }

  /** What `Merge` promises: the headers are r's and then other's, each name
      once, first occurrence first; every header's column is other's when
      other has that key and r's otherwise; there is no other column. */
  lemma MergeSpec(r: Value, other: Value)
    requires r.Dict? && other.Dict?
    ensures var d := Merge(r, other);
            Distinct(d.header)
            && (forall k :: k in d.header <==> k in r.header || k in other.header)
            && (Distinct(r.header) ==> d.header == r.header + Fresh(r.header, other.header))
            && forall k :: Lookup(d.columns, k) ==
                 (if k !in d.header then None
                  else if Lookup(other.columns, k).Some? then Lookup(other.columns, k)
                  else if Lookup(r.columns, k).Some? then Lookup(r.columns, k)
                  else Some([]))
  {
    var hs := r.header + other.header;
    DedupSpec(hs);
    assert forall k :: k in hs <==> k in r.header || k in other.header;
    if Distinct(r.header) {
      DedupAppend(r.header, other.header);
    }
  }

  // ---------------------------------------------------------------------
  // Vectors.

  /** `AppendResult`. */
  function AppendResult(v: Value, x: Value): (r: Value)
    requires v.Vec?
    ensures r.Vec? && |r.items| == |v.items| + 1 && r.items[|v.items|] == x
    ensures r.items[..|v.items|] == v.items
  {
    Vec(v.items + [x])
  }

  /** `PrependResult`. */
  function PrependResult(v: Value, x: Value): (r: Value)
    requires v.Vec?
    ensures r.Vec? && |r.items| == |v.items| + 1 && r.items[0] == x
    ensures r.items[1..] == v.items
  {
    Vec([x] + v.items)
  }

  // ---------------------------------------------------------------------
  // Rendering.

  /** The results whose `String` the model defines: no nil anywhere, and no
      dictionary, whose table layout belongs to an external library. */
  predicate Printable(v: Value) {
    match v
    case Nil => false
    case Dict(_, _) => false
    case Vec(items) => forall i :: 0 <= i < |items| ==> Printable(items[i])
    case _ => true
  }

  /** `String()`. */
  function String(v: Value): string
    requires Printable(v)
  {
    match v
    case CharSeq(s) => s
    case Symbol(s) => s
    case Int(i) => IntToString(i)
    case Str(s) => s
    case Keyword(s) => s
    case Vec(items) => Join(",", seq(|items|, i requires 0 <= i < |items| => String(items[i])))
    case Empty => "nil"
    case SexpVal(e) => Sexpr.String(e)
  }

  /** The vector rendering puts exactly one comma between neighbouring
      items: the empty vector renders empty, a single item as itself, and a
      longer vector as its first item, a comma, and the rest. */
  lemma VecString(items: seq<Value>)
    requires Printable(Vec(items))
    ensures |items| == 0 ==> String(Vec(items)) == ""
    ensures |items| == 1 ==> String(Vec(items)) == String(items[0])
    ensures |items| > 1 ==> String(Vec(items)) == String(items[0]) + "," + String(Vec(items[1..]))
  {
    if |items| > 1 {
      var parts := seq(|items|, i requires 0 <= i < |items| => String(items[i]));
      var tail := seq(|items| - 1, i requires 0 <= i < |items| - 1 => String(items[1..][i]));
      assert parts[1..] == tail;
    }
  }

  // ---------------------------------------------------------------------
  // Deep copies.

  /** A nil somewhere inside the value; `DeepCopy` calls a method on it. */
  predicate HasNil(v: Value) {
    match v
    case Nil => true
    case Vec(items) => exists i :: 0 <= i < |items| && HasNil(items[i])
    case Dict(_, cols) => exists i, j :: 0 <= i < |cols| && 0 <= j < |cols[i].items| && HasNil(cols[i].items[j])
    case _ => false
  }

  /** `DeepCopy()`. A dictionary gets a fresh empty column per header, then
      every stored column is copied in; expressions are copied with the tree
      copy, which clears the text of compound nodes. */
  function DeepCopy(v: Value): (r: Outcome<Value>)
    ensures r.Fail? <==> HasNil(v)
    ensures r.Fail? ==> r.error == NilDereference
    decreases v, 2
  {
    match v
    case Nil => Fail(NilDereference)
    case Vec(items) =>
      var copies :- DeepCopyAll(items);
      Ok(Vec(copies))
    case Dict(header, cols) =>
      var copied :- CopyColumns(FreshColumns(header), cols);
      Ok(Dict(header, copied))
    case SexpVal(e) => Ok(SexpVal(Sexpr.DeepCopy(e)))
    case _ => Ok(v)
  }

  function DeepCopyAll(items: seq<Value>): (r: Outcome<seq<Value>>)
    ensures r.Fail? <==> exists i :: 0 <= i < |items| && HasNil(items[i])
    ensures r.Fail? ==> r.error == NilDereference
    ensures r.Ok? ==> |r.value| == |items| && forall i :: 0 <= i < |items| ==> DeepCopy(items[i]) == Ok(r.value[i])
    decreases items, 1
  {
    if |items| == 0 then Ok([])
    else
      var first :- DeepCopy(items[0]);
      var rest :- DeepCopyAll(items[1..]);
      assert forall i :: 1 <= i < |items| ==> items[i] == items[1..][i - 1];
      Ok([first] + rest)
  }

  /** The copy loop over the map: the first entry for a key is copied last,
      so it is the one that counts, as in the original. */
  function CopyColumns(base: seq<Column>, cols: seq<Column>): (r: Outcome<seq<Column>>)
    ensures r.Fail? <==> exists i, j :: 0 <= i < |cols| && 0 <= j < |cols[i].items| && HasNil(cols[i].items[j])
    ensures r.Fail? ==> r.error == NilDereference
    ensures r.Ok? ==> forall k :: Lookup(r.value, k).Some? <==> Lookup(base, k).Some? || Lookup(cols, k).Some?
    decreases cols, 1
  {
    if |cols| == 0 then Ok(base)
    else
      var rest :- CopyColumns(base, cols[1..]);
      var items :- DeepCopyAll(cols[0].items);
      assert forall i :: 1 <= i < |cols| ==> cols[i] == cols[1..][i - 1];
      Ok(Put(rest, cols[0].key, items))
  }

  /** Each stored column ends up as the copy of its items; keys the loop
      does not visit keep the base column. */
  lemma {:induction false} CopyColumnsSpec(base: seq<Column>, cols: seq<Column>)
    requires CopyColumns(base, cols).Ok?
    ensures var r := CopyColumns(base, cols).value;
            (forall k :: Lookup(cols, k).Some? ==> DeepCopyAll(Lookup(cols, k).value) == Ok(Lookup(r, k).value))
            && forall k :: Lookup(cols, k).None? ==> Lookup(r, k) == Lookup(base, k)
    decreases |cols|
  {
    if |cols| > 0 {
      CopyColumnsSpec(base, cols[1..]);
    }
  }

  /** A copy has the original's type; a result other than a vector, a
      dictionary or an expression is its own copy, and an expression whose
      compound nodes carry no text (every parsed tree) renders as before;
      a dictionary keeps its header order, and each of its
      columns keeps its length. */
  lemma DeepCopyKeepsTypeAndString(v: Value)
    requires !HasNil(v)
    ensures TypeOf(DeepCopy(v).value) == TypeOf(v)
    ensures !v.SexpVal? && !v.Vec? && !v.Dict? ==> DeepCopy(v).value == v
    ensures v.SexpVal? && Sexpr.Normal(v.e) ==> String(DeepCopy(v).value) == String(v)
    ensures v.Dict? ==> DeepCopy(v).value.header == v.header
    ensures v.Dict? ==> forall k :: Lookup(v.columns, k).Some? ==>
              Lookup(DeepCopy(v).value.columns, k).Some?
              && |Lookup(DeepCopy(v).value.columns, k).value| == |Lookup(v.columns, k).value|
  {
    if v.SexpVal? && Sexpr.Normal(v.e) {
      Sexpr.RenderingsSurviveDeepCopy(v.e);
    }
    if v.Dict? {
      CopyColumnsSpec(FreshColumns(v.header), v.columns);
    }
  }

  /** Every expression inside the value has no text on compound nodes. */
  predicate NormalExprs(v: Value) {
    match v
    case SexpVal(e) => Sexpr.Normal(e)
    case Vec(items) => forall i :: 0 <= i < |items| ==> NormalExprs(items[i])
    case _ => true
  }

  /** The copy of a printable result renders like the original. */
  lemma {:induction false} DeepCopyKeepsString(v: Value)
    requires Printable(v) && NormalExprs(v)
    ensures !HasNil(v) && Printable(DeepCopy(v).value) && String(DeepCopy(v).value) == String(v)
    decreases v
  {
    match v
    case Vec(items) =>
      forall i | 0 <= i < |items|
        ensures !HasNil(items[i]) && Printable(DeepCopy(items[i]).value)
                && String(DeepCopy(items[i]).value) == String(items[i])
      {
        DeepCopyKeepsString(items[i]);
      }
      var copies := DeepCopyAll(items).value;
      assert seq(|copies|, i requires 0 <= i < |copies| => String(copies[i]))
          == seq(|items|, i requires 0 <= i < |items| => String(items[i]));
    case SexpVal(e) =>
      Sexpr.RenderingsSurviveDeepCopy(e);
    case _ =>
  }

  // ---------------------------------------------------------------------
  // Value() and SetValue.

  /** The dynamic values `SetValue` can be handed and `Value()` returns. */
  datatype Payload =
    | PNone                                              // untyped nil
    | PString(s: string)
    | PInt(i: int)
    | PSexp(e: Sexpr.Sexp)
    | PDict(header: seq<string>, columns: seq<Column>)  // a DictResult struct
    | PVec(items: seq<Value>)
    | POther                                             // any other Go type

  /** `Value()`, defined on every result. */
  function ValueOf(v: Value): Payload
    requires !v.Nil?
  {
    match v
    case CharSeq(s) => PString(s)
    case Symbol(s) => PString(s)
    case Int(i) => PInt(i)
    case Str(s) => PString(s)
    case Keyword(s) => PString(s)
    case Dict(_, cols) => POther    // the bare map, not a DictResult
    case Vec(items) => PVec(items)
    case Empty => PNone
    case SexpVal(e) => PSexp(e)
  }

  /** The payload kind each implementation stores. */
  predicate Accepts(v: Value, p: Payload) {
    match v
    case Nil => false
    case CharSeq(_) => p.PString?
    case Symbol(_) => p.PString?
    case Int(_) => p.PInt?
    case Str(_) => p.PString?
    case Keyword(_) => p.PString?
    case Dict(_, _) => p.PDict?
    case Vec(_) => p.PVec?
    case Empty => true
    case SexpVal(_) => p.PSexp?
  }

  /** The error text of a rejected `SetValue`. */
  function Rejection(v: Value): string {
    match v
    case Int(_) => "invalid type for Int"
    case Str(_) => "invalid type for string"
    case Dict(_, _) => "invalid type for dictionary"
    case Vec(_) => "invalid type for vector"
    case _ => "invalid type for String"
  }

  /** `SetValue`: the payload replaces the stored one when it has the
      variant's payload kind; the empty result ignores it; anything else is
      an error that leaves the value as it was. */
  function SetValue(v: Value, p: Payload): (r: Outcome<Value>)
    ensures v.Nil? ==> r == Fail(NilDereference)
    ensures !v.Nil? ==> (r.Ok? <==> Accepts(v, p))
    ensures !v.Nil? && r.Fail? ==> r.error == Error(Rejection(v))
    ensures r.Ok? ==> TypeOf(r.value) == TypeOf(v)
  {
    match v
    case Nil => Fail(NilDereference)
    case CharSeq(_) => if p.PString? then Ok(CharSeq(p.s)) else Fail(Error(Rejection(v)))
    case Symbol(_) => if p.PString? then Ok(Symbol(p.s)) else Fail(Error(Rejection(v)))
    case Int(_) => if p.PInt? then Ok(Int(p.i)) else Fail(Error(Rejection(v)))
    case Str(_) => if p.PString? then Ok(Str(p.s)) else Fail(Error(Rejection(v)))
    case Keyword(_) => if p.PString? then Ok(Keyword(p.s)) else Fail(Error(Rejection(v)))
    case Dict(_, _) => if p.PDict? then Ok(Dict(p.header, p.columns)) else Fail(Error(Rejection(v)))
    case Vec(_) => if p.PVec? then Ok(Vec(p.items)) else Fail(Error(Rejection(v)))
    case Empty => Ok(Empty)
    case SexpVal(_) => if p.PSexp? then Ok(SexpVal(p.e)) else Fail(Error(Rejection(v)))
  }

  /** Setting a value and reading it back: except for the empty result and
      dictionaries (whose `Value()` is the bare map), `Value()` returns what
      was set; and setting a value to what `Value()` returns changes nothing. */
  lemma SetValueRoundTrip(v: Value, p: Payload)
    requires !v.Nil?
    ensures SetValue(v, p).Ok? && !v.Empty? && !v.Dict? ==> ValueOf(SetValue(v, p).value) == p
    ensures !v.Dict? ==> SetValue(v, ValueOf(v)) == Ok(v)
  {
  }
}
