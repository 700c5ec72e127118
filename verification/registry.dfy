/** The registry of built-in functions (eval/function.go): each built-in
    has a symbol, under which the evaluator finds it, and a two-part
    description that `desc` reports. The token labels the evaluation
    package hooks into the lexer when it is loaded are here too. */
module Registry {

  import opened Outcomes
  import opened Lexer

  datatype Builtin =
    | Comment | Concat | Desc | Root | Def | Bindings | Resolve | Tidy | Pair
    | DictFn | VecFn | Add | IdentifierFn | StringFn | IntFn | KeywordFn | QuoteFn | EvalFn

  /** `Symbol()` of each built-in. */
  function Symbol(b: Builtin): string {
    match b
    case Comment => ";"
    case Concat => "concat"
    case Desc => "desc"
    case Root => "root"
    case Def => "def"
    case Bindings => "bindings"
    case Resolve => "resolve"
    case Tidy => "tidy"
    case Pair => "pair"
    case DictFn => "dict"
    case VecFn => "vec"
    case Add => "add"
    case IdentifierFn => "identifier"
    case StringFn => "string"
    case IntFn => "int"
    case KeywordFn => "keyword"
    case QuoteFn => "quote"
    case EvalFn => "eval"
  }

  /** `Desc()`: the usage line, then the description. */
  function Describe(b: Builtin): (string, string) {
    match b
    case Comment => ("(; a)", "help with the evaluation of comnments [Internal]")
    case Concat => ("(concat a b)", "Concatenates string sub-expressions a and b")
    case Desc => ("(desc :x)", "Provide a description for the function identified by the keyword x")
    case Root => ("(root a)", "Evaluates the subexpression and propagates the result [Internal]")
    case Def => ("(def a b)", "Declare variable a and bind it to the result yielded by expression b")
    case Bindings => ("(bindings)", "List all bindings in the current environment")
    case Resolve => ("(resolve a)", "Resolves variable a [Internal]")
    case Tidy => ("(tidy)", "Cleanup the environment")
    case Pair => ("(pair :a b)", "Generate a data pair with the symbol a and the result of the (string|int) sub-expression b [Internal]")
    case DictFn => ("(dict (p0) ... (pN))", "Generates a dictionary from a sequence of pairs (pX) [Internal]")
    case VecFn => ("(vec (p0) ... (pN))", "Generate a vector from (string|int|keyword) subexpressions pX [Internal]")
    case Add => ("(add a b)", "Add numeric sub-expressions a and b")
    case IdentifierFn => ("(identifier a)", "Returns an identifier handle [Internal]")
    case StringFn => ("(string a)", "Furnishing function for string [Internal]")
    case IntFn => ("(int a)", "Furnishing function for string [Internal]")
    case KeywordFn => ("(keyword a)", "Furnishing function for keywords [Internal]")
    case QuoteFn => ("(quote x)", "quote expression s")
    case EvalFn => ("(eval s)", "evaluate sub-expression s")
  }

  /** The `builtins` map, as the list of its entries; Go's map has no order
      and nothing below depends on this one. */
  const Builtins: seq<Builtin> :=
    [Comment, Concat, Desc, Root, Def, Bindings, Resolve, Tidy, Pair,
     DictFn, VecFn, Add, IdentifierFn, StringFn, IntFn, KeywordFn, QuoteFn, EvalFn]

  /** A registry maps each symbol to at most one function. */
  predicate Registry(reg: seq<Builtin>) {
    forall i, j :: 0 <= i < j < |reg| ==> Symbol(reg[i]) != Symbol(reg[j])
  }

  /** The map lookup `builtins[l]`. */
  function Find(reg: seq<Builtin>, l: string): (r: Option<Builtin>)
    ensures r.Some? <==> exists i :: 0 <= i < |reg| && Symbol(reg[i]) == l
    ensures r.Some? ==> Symbol(r.value) == l && r.value in reg
    decreases |reg|
  {
    if |reg| == 0 then None
    else if Symbol(reg[0]) == l then Some(reg[0])
    else Find(reg[1..], l)
  }

  /** `IsFunction`. */
  predicate IsFunction(reg: seq<Builtin>, l: string) {
    Find(reg, l).Some?
  }

  /** `HookFunction`: a symbol already in use is an error and the registry
      stays as it was; otherwise the function is added. */
  function HookFunction(reg: seq<Builtin>, b: Builtin): (r: Outcome<seq<Builtin>>)
    requires Registry(reg)
    ensures r.Fail? <==> IsFunction(reg, Symbol(b))
    ensures r.Fail? ==> r.error == Error("function " + Symbol(b) + " already used")
    ensures r.Ok? ==> Registry(r.value) && Find(r.value, Symbol(b)) == Some(b)
                      && forall l :: l != Symbol(b) ==> Find(r.value, l) == Find(reg, l)
  {
    if IsFunction(reg, Symbol(b)) then Fail(Error("function " + Symbol(b) + " already used"))
    else
      var r := reg + [b];
      FindAppended(reg, b);
      Ok(r)
  }

  lemma {:induction false} FindAppended(reg: seq<Builtin>, b: Builtin)
    requires !IsFunction(reg, Symbol(b))
    ensures Find(reg + [b], Symbol(b)) == Some(b)
    ensures forall l :: l != Symbol(b) ==> Find(reg + [b], l) == Find(reg, l)
    decreases |reg|
  {
    if |reg| > 0 {
      assert (reg + [b])[1..] == reg[1..] + [b];
      FindAppended(reg[1..], b);
    }
  }

  /** No symbol is empty or starts with the keyword marker ':'. */
  lemma SymbolNotKeyword(b: Builtin)
    ensures |Symbol(b)| > 0 && Symbol(b)[0] != ':'
  {
  }

  /** No two built-ins share a symbol. */
  lemma SymbolInjective(a: Builtin, b: Builtin)
    requires Symbol(a) == Symbol(b)
    ensures a == b
  {
  }

  lemma BuiltinsDistinct()
    ensures forall i, j :: 0 <= i < j < |Builtins| ==> Builtins[i] != Builtins[j]
  {
  }

  /** Where each built-in sits in the list of entries. */
  function IndexOf(b: Builtin): (i: nat)
    ensures i < |Builtins| && Builtins[i] == b
  {
    match b
    case Comment => 0 case Concat => 1 case Desc => 2 case Root => 3 case Def => 4
    case Bindings => 5 case Resolve => 6 case Tidy => 7 case Pair => 8 case DictFn => 9
    case VecFn => 10 case Add => 11 case IdentifierFn => 12 case StringFn => 13
    case IntFn => 14 case KeywordFn => 15 case QuoteFn => 16 case EvalFn => 17
  }

  /** The symbols of the registered functions. */
  const Symbols: set<string> := set i | 0 <= i < |Builtins| :: Symbol(Builtins[i])

  /** The initial registry holds the eighteen built-ins, each under its own
      symbol, so a label is a function exactly when it is one of the
      eighteen symbols, and hooking any built-in again is refused. */
  lemma InitialRegistry()
    ensures Registry(Builtins)
    ensures forall b: Builtin :: Find(Builtins, Symbol(b)) == Some(b)
    ensures forall l :: IsFunction(Builtins, l) <==> l in Symbols
    ensures forall b: Builtin :: HookFunction(Builtins, b).Fail?
  {
    BuiltinsDistinct();
    forall i, j | 0 <= i < j < |Builtins| ensures Symbol(Builtins[i]) != Symbol(Builtins[j]) {
      if Symbol(Builtins[i]) == Symbol(Builtins[j]) {
        SymbolInjective(Builtins[i], Builtins[j]);
      }
    }
    forall b: Builtin ensures Find(Builtins, Symbol(b)) == Some(b) {
      FindFirst(Builtins, IndexOf(b));
    }
    forall l ensures IsFunction(Builtins, l) <==> l in Symbols {
      if l in Symbols {
        var i :| 0 <= i < |Builtins| && Symbol(Builtins[i]) == l;
      }
    }
  }

  /** The lookup `builtins[l]` in the initial registry, label by label. */
  function BuiltinOf(l: string): (r: Option<Builtin>)
  {
    if l == ";" then Some(Comment)
    else if l == "concat" then Some(Concat)
    else if l == "desc" then Some(Desc)
    else if l == "root" then Some(Root)
    else if l == "def" then Some(Def)
    else if l == "bindings" then Some(Bindings)
    else if l == "resolve" then Some(Resolve)
    else if l == "tidy" then Some(Tidy)
    else if l == "pair" then Some(Pair)
    else if l == "dict" then Some(DictFn)
    else if l == "vec" then Some(VecFn)
    else if l == "add" then Some(Add)
    else if l == "identifier" then Some(IdentifierFn)
    else if l == "string" then Some(StringFn)
    else if l == "int" then Some(IntFn)
    else if l == "keyword" then Some(KeywordFn)
    else if l == "quote" then Some(QuoteFn)
    else if l == "eval" then Some(EvalFn)
    else None
  }

  /** The label-by-label lookup finds a built-in exactly under its own
      symbol. */
  lemma BuiltinOfSymbol(l: string)
    ensures BuiltinOf(l).Some? ==> Symbol(BuiltinOf(l).value) == l
    ensures forall b: Builtin :: Symbol(b) == l ==> BuiltinOf(l) == Some(b)
  {
  }

  /** Each built-in is found under its own symbol. */
  lemma SymbolKind(b: Builtin)
    ensures BuiltinOf(Symbol(b)) == Some(b)
  {
  }

  /** The label-by-label lookup is the lookup in the initial registry. */
  lemma BuiltinOfIsFind(l: string)
    ensures BuiltinOf(l) == Find(Builtins, l)
  {
    InitialRegistry();
    BuiltinOfSymbol(l);
    var r := BuiltinOf(l);
    if r.Some? {
      assert Find(Builtins, Symbol(r.value)) == Some(r.value);
    }
  }

  /** Lookup finds the first entry under a symbol. */
  lemma {:induction false} FindFirst(reg: seq<Builtin>, i: nat)
    requires i < |reg| && forall j :: 0 <= j < i ==> Symbol(reg[j]) != Symbol(reg[i])
    ensures Find(reg, Symbol(reg[i])) == Some(reg[i])
    decreases i
  {
    if i > 0 {
      FindFirst(reg[1..], i - 1);
    }
  }

  // ---------------------------------------------------------------------
  // Token labels.

  /** The labels hooked while the package loads: each built-in's symbol as
      its constructor runs (the package variables, in declaration order),
      then the structural labels of `init`. */
  const ConstructorOrder: seq<Builtin> :=
    [Root, Comment, Concat, Desc, Def, Bindings, Resolve, Tidy, Pair,
     DictFn, VecFn, Add, IdentifierFn, StringFn, IntFn, KeywordFn, QuoteFn, EvalFn]

  const ConstructorLabels: seq<string> :=
    seq(|ConstructorOrder|, i requires 0 <= i < |ConstructorOrder| => Symbol(ConstructorOrder[i]))

  const InitLabels: seq<string> := ["eof", "\"", "illegal", "[", "]", "{", "}", ",", Unknown, "(", ")"]

  /** Where each built-in's constructor runs. */
  function ConstructorIndex(b: Builtin): (i: nat)
    ensures i < |ConstructorOrder| && ConstructorOrder[i] == b
  {
    match b
    case Root => 0 case Comment => 1 case Concat => 2 case Desc => 3 case Def => 4
    case Bindings => 5 case Resolve => 6 case Tidy => 7 case Pair => 8 case DictFn => 9
    case VecFn => 10 case Add => 11 case IdentifierFn => 12 case StringFn => 13
    case IntFn => 14 case KeywordFn => 15 case QuoteFn => 16 case EvalFn => 17
  }

  lemma LabelsDistinct()
    ensures forall i, j :: 0 <= i < j < |ConstructorOrder| ==> ConstructorOrder[i] != ConstructorOrder[j]
    ensures forall i, j :: 0 <= i < j < |InitLabels| ==> InitLabels[i] != InitLabels[j]
    ensures forall b: Builtin :: Symbol(b) !in InitLabels
  {
  }

  /** Hooks the labels in order; a label hooked twice is fatal. */
  function HookTokens(cfg: LexConfig, labels: seq<string>): (r: Outcome<LexConfig>)
    ensures r.Ok? ==> r.value.labels == cfg.labels + set i | 0 <= i < |labels| :: labels[i]
    ensures r.Ok? ==> r.value.matchers == cfg.matchers && r.value.isFloat == cfg.isFloat
    decreases |labels|
  {
    if |labels| == 0 then Ok(cfg)
    else
      var (_, cfg1) :- HookToken(cfg, labels[0]);
      var r :- HookTokens(cfg1, labels[1..]);
      assert (set i | 0 <= i < |labels| :: labels[i]) == {labels[0]} + set i | 0 <= i < |labels[1..]| :: labels[1..][i];
      Ok(r)
  }

  /** Hooking distinct labels none of which is known yet succeeds. */
  lemma {:induction false} HookTokensSucceed(cfg: LexConfig, labels: seq<string>)
    requires forall i, j :: 0 <= i < j < |labels| ==> labels[i] != labels[j]
    requires forall i :: 0 <= i < |labels| ==> labels[i] !in cfg.labels
    ensures HookTokens(cfg, labels).Ok?
    decreases |labels|
  {
    if |labels| > 0 {
      var cfg1 := HookToken(cfg, labels[0]).value.1;
      HookTokensSucceed(cfg1, labels[1..]);
    }
  }

  /** The constructors hook each built-in's symbol exactly once. */
  lemma ConstructorLabelsSet()
    ensures forall i, j :: 0 <= i < j < |ConstructorLabels| ==> ConstructorLabels[i] != ConstructorLabels[j]
    ensures (set i | 0 <= i < |ConstructorLabels| :: ConstructorLabels[i]) == Symbols
  {
    LabelsDistinct();
    forall i, j | 0 <= i < j < |ConstructorLabels| ensures ConstructorLabels[i] != ConstructorLabels[j] {
      if ConstructorLabels[i] == ConstructorLabels[j] {
        SymbolInjective(ConstructorOrder[i], ConstructorOrder[j]);
      }
    }
    forall l | l in Symbols ensures l in set i | 0 <= i < |ConstructorLabels| :: ConstructorLabels[i] {
      var k :| 0 <= k < |Builtins| && Symbol(Builtins[k]) == l;
      assert ConstructorLabels[ConstructorIndex(Builtins[k])] == l;
    }
    forall i | 0 <= i < |ConstructorLabels| ensures ConstructorLabels[i] in Symbols {
      assert ConstructorLabels[i] == Symbol(Builtins[IndexOf(ConstructorOrder[i])]);
    }
  }

  /** The labels of a concatenation, element by element. */
  lemma {:induction false} ConcatLabels(a: seq<string>, b: seq<string>)
    requires forall i, j :: 0 <= i < j < |a| ==> a[i] != a[j]
    requires forall i, j :: 0 <= i < j < |b| ==> b[i] != b[j]
    requires forall i, j :: 0 <= i < |a| && 0 <= j < |b| ==> a[i] != b[j]
    ensures forall i, j :: 0 <= i < j < |a + b| ==> (a + b)[i] != (a + b)[j]
    ensures (set i | 0 <= i < |a + b| :: (a + b)[i])
            == (set i | 0 <= i < |a| :: a[i]) + (set i | 0 <= i < |b| :: b[i])
  {
    var c := a + b;
    forall i, j | 0 <= i < j < |c| ensures c[i] != c[j] {
      if j >= |a| && i < |a| {
        assert c[j] == b[j - |a|];
      } else if i >= |a| {
        assert c[i] == b[i - |a|] && c[j] == b[j - |a|];
      }
    }
    forall k | 0 <= k < |a| ensures a[k] in set i | 0 <= i < |c| :: c[i] {
      assert c[k] == a[k];
    }
    forall k | 0 <= k < |b| ensures b[k] in set i | 0 <= i < |c| :: c[i] {
      assert c[|a| + k] == b[k];
    }
    forall i | 0 <= i < |c| ensures c[i] in (set i | 0 <= i < |a| :: a[i]) + (set i | 0 <= i < |b| :: b[i]) {
      if i >= |a| {
        assert c[i] == b[i - |a|];
      }
    }
  }

  /** Loading the package: the built-ins' symbols and the structural labels
      all become token labels, which succeeds on a configuration that knows
      none of them. */
  lemma LoadHooksLabels(cfg: LexConfig)
    requires forall l :: l in Symbols || l in InitLabels ==> l !in cfg.labels
    ensures var r := HookTokens(cfg, ConstructorLabels + InitLabels);
            r.Ok? && r.value.labels == cfg.labels + Symbols + set i | 0 <= i < |InitLabels| :: InitLabels[i]
  {
    var all := ConstructorLabels + InitLabels;
    LabelsDistinct();
    ConstructorLabelsSet();
    forall i, j | 0 <= i < |ConstructorLabels| && 0 <= j < |InitLabels|
      ensures ConstructorLabels[i] != InitLabels[j]
    {
      assert ConstructorLabels[i] == Symbol(ConstructorOrder[i]);
    }
    ConcatLabels(ConstructorLabels, InitLabels);
    forall i | 0 <= i < |all| ensures all[i] !in cfg.labels {
      assert all[i] in Symbols + set i | 0 <= i < |InitLabels| :: InitLabels[i];
    }
    HookTokensSucceed(cfg, all);
  }
}
