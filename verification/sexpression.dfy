/** The expression tree (parser/sexpression.go). A node has a kind (a token
    label), ordered children and a literal value. The parser gives only
    atomic nodes a value; every constructor of a compound node sets it to "". */
module Sexpr {

  import opened Text

  datatype Sexp = Sexp(kind: string, children: seq<Sexp>, value: string)

  /** `NewSexpression`: a node with the given children and an empty value. */
  function NewSexpression(kind: string, children: seq<Sexp>): (r: Sexp)
    ensures r.kind == kind && r.children == children && r.value == ""
  {
    Sexp(kind, children, "")
  }

  /** `NewAtomicSexpression`: a childless node carrying a literal. */
  function NewAtomic(kind: string, value: string): (r: Sexp)
    ensures IsAtomic(r) && r.kind == kind && r.value == value
  {
    Sexp(kind, [], value)
  }

  predicate IsAtomic(s: Sexp) {
    |s.children| == 0
  }

  /** `Len`: the number of children; zero exactly for atomic nodes. */
  function Len(s: Sexp): (n: nat)
    ensures n == 0 <==> IsAtomic(s)
    ensures n == |s.children|
  {
    |s.children|
  }

  /** `Append`: the node gains `sub` as its new last child; its kind, value
      and earlier children are unchanged. The Go method also returns true. */
  function Append(s: Sexp, sub: Sexp): (r: Sexp)
    ensures r.kind == s.kind && r.value == s.value
    ensures |r.children| == |s.children| + 1
    ensures r.children[..|s.children|] == s.children && r.children[|s.children|] == sub
    ensures !IsAtomic(r)
  {
    Sexp(s.kind, s.children + [sub], s.value)
  }

  /** `DeepCopy`: atomic nodes are copied with their value, compound nodes
      are rebuilt with `NewSexpression`, hence with an empty value. */
  function DeepCopy(s: Sexp): (r: Sexp)
    ensures r.kind == s.kind && |r.children| == |s.children|
    ensures IsAtomic(s) ==> r == s
    ensures !IsAtomic(s) ==> r.value == ""
    ensures forall i :: 0 <= i < |s.children| ==> r.children[i] == DeepCopy(s.children[i])
    decreases s, 1
  {
    if IsAtomic(s) then NewAtomic(s.kind, s.value)
    else NewSexpression(s.kind, DeepCopyAll(s.children))
  }

  function DeepCopyAll(cs: seq<Sexp>): (r: seq<Sexp>)
    ensures |r| == |cs|
    ensures forall i :: 0 <= i < |cs| ==> r[i] == DeepCopy(cs[i])
    decreases cs, 0
  {
    if |cs| == 0 then [] else [DeepCopy(cs[0])] + DeepCopyAll(cs[1..])
  }

  /** No node of the tree has kind `k`. */
  predicate NoKind(s: Sexp, k: string) {
    s.kind != k && forall i :: 0 <= i < |s.children| ==> NoKind(s.children[i], k)
  }

  /** A tree as every constructor builds it: compound nodes carry no value. */
  predicate Normal(s: Sexp) {
    (!IsAtomic(s) ==> s.value == "") && forall i :: 0 <= i < |s.children| ==> Normal(s.children[i])
  }

  lemma {:induction false} DeepCopyIsNormal(s: Sexp)
    ensures Normal(DeepCopy(s))
  {
    var r := DeepCopy(s);
    forall i | 0 <= i < |r.children|
      ensures Normal(r.children[i])
    {
      DeepCopyIsNormal(s.children[i]);
    }
  }

  /** A deep copy of a normal tree is equal to it, so copying is idempotent. */
  lemma {:induction false} DeepCopyOfNormal(s: Sexp)
    requires Normal(s)
    ensures DeepCopy(s) == s
  {
    var r := DeepCopy(s);
    forall i | 0 <= i < |s.children|
      ensures r.children[i] == s.children[i]
    {
      DeepCopyOfNormal(s.children[i]);
    }
    assert r.children == s.children;
  }

  lemma DeepCopyIdempotent(s: Sexp)
    ensures DeepCopy(DeepCopy(s)) == DeepCopy(s)
  {
    DeepCopyIsNormal(s);
    DeepCopyOfNormal(DeepCopy(s));
  }

  /** The debug rendering `String` (`stringWithIndentation(level, false)`). */
  function Render(s: Sexp, level: nat): string
    decreases s, 1
  {
    if IsAtomic(s) then
      if s.kind == "string" then Spaces(level) + "(" + s.kind + " \"" + s.value + "\")\n"
      else Spaces(level) + "(" + s.kind + " " + s.value + ")\n"
    else
      Spaces(level) + "(" + s.kind + ":" + s.value + "\n" + RenderAll(s.children, level + 1)
      + Spaces(level) + ")\n"
  }

  function RenderAll(cs: seq<Sexp>, level: nat): string
    decreases cs, 0
  {
    if |cs| == 0 then "" else Render(cs[0], level) + RenderAll(cs[1..], level)
  }

  function String(s: Sexp): string {
    Render(s, 0)
  }

  /** The re-parseable rendering `ExpressionString`
      (`stringWithIndentation(level, true)`), which ignores the level. */
  function Show(s: Sexp): string
    decreases s, 1
  {
    if IsAtomic(s) then
      if s.kind == "string" then "\"" + s.value + "\" " else s.value + " "
    else
      "(" + s.kind + " " + s.value + ShowAll(s.children) + ") "
  }

  function ShowAll(cs: seq<Sexp>): string
    decreases cs, 0
  {
    if |cs| == 0 then "" else Show(cs[0]) + ShowAll(cs[1..])
  }

  function ExpressionString(s: Sexp): string {
    Show(s)
  }

  /** A childless node with no text that is not a string: what the parser
      builds for `(kind)`. `IsAtomic` holds for it, so `Show` prints its
      empty value and the node disappears from the rendering. */
  predicate EmptyForm(s: Sexp) {
    IsAtomic(s) && s.kind != "string" && s.value == ""
  }

  /** No node of the tree is an empty form. */
  predicate NoEmptyForms(s: Sexp) {
    !EmptyForm(s) && forall i :: 0 <= i < |s.children| ==> NoEmptyForms(s.children[i])
  }

  /** The re-parseable rendering as evidently intended: like `Show`, except
      that an empty form is printed as a form, `(kind ) `. */
  function ShowParseable(s: Sexp): string
    decreases s, 1
  {
    if IsAtomic(s) && !EmptyForm(s) then
      if s.kind == "string" then "\"" + s.value + "\" " else s.value + " "
    else
      "(" + s.kind + " " + s.value + ShowAllParseable(s.children) + ") "
  }

  function ShowAllParseable(cs: seq<Sexp>): string
    decreases cs, 0
  {
    if |cs| == 0 then "" else ShowParseable(cs[0]) + ShowAllParseable(cs[1..])
  }

  /** The two renderings differ only on empty forms. */
  lemma {:induction false} ShowAgrees(s: Sexp)
    requires NoEmptyForms(s)
    ensures Show(s) == ShowParseable(s)
    decreases s, 1
  {
    if !IsAtomic(s) {
      ShowAllAgrees(s.children);
    }
  }

  lemma {:induction false} ShowAllAgrees(cs: seq<Sexp>)
    requires forall i :: 0 <= i < |cs| ==> NoEmptyForms(cs[i])
    ensures ShowAll(cs) == ShowAllParseable(cs)
    decreases cs, 0
  {
    if |cs| > 0 {
      ShowAgrees(cs[0]);
      ShowAllAgrees(cs[1..]);
    }
  }

  /** A normal tree renders identically to its deep copy, in both forms. */
  lemma RenderingsSurviveDeepCopy(s: Sexp)
    requires Normal(s)
    ensures String(DeepCopy(s)) == String(s)
    ensures ExpressionString(DeepCopy(s)) == ExpressionString(s)
  {
    DeepCopyOfNormal(s);
  }

  /** For a compound node that carries a value, the copy renders differently:
      `DeepCopy` drops the value that `String` prints after the colon. */
  lemma DeepCopyDropsCompoundValue()
    ensures var s := Sexp("concat", [NewAtomic("string", "a")], "v");
            String(DeepCopy(s)) != String(s)
  {
    var s := Sexp("concat", [NewAtomic("string", "a")], "v");
    assert String(s)[8] == 'v';
    assert String(DeepCopy(s))[8] == '\n';
  }
}
