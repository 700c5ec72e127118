/** Parsing inverts the re-parseable rendering. `ExpressionString` is meant
    to produce a "clean parseable" string (parser/sexpression.go:27); for the
    children of a root, the parser rebuilds the root from it whenever every
    literal reads back as the token it came from.

    The proof goes through the token sequence of a tree: the lexer reads that
    sequence off the rendering, and the parser, fed that sequence, attaches
    the tree. */
module Roundtrip {

  import opened Outcomes
  import opened Sexpr
  import opened Lexer
  import opened Parser
  import Stack = ExprStack

  /** A word: one or more word characters. */
  predicate IsWord(w: string) {
    |w| > 0 && forall i :: 0 <= i < |w| ==> IsWordChar(w[i])
  }

  /** A tree whose rendering reads back as itself under `cfg`: a string
      literal holds no quote and no NUL, another literal is a word that the
      matchers classify as its kind, and every form is named by a hooked
      word that classifies as itself and carries no value. */
  predicate Printable(cfg: LexConfig, s: Sexp)
    decreases s
  {
    if IsAtomic(s) && !EmptyForm(s) then
      if s.kind == "string" then
        "string" in cfg.labels && forall i :: 0 <= i < |s.value| ==> s.value[i] != '"' && s.value[i] != '\0'
      else
        IsWord(s.value) && Classify(cfg, cfg.matchers, s.value) == s.kind
        && s.kind in cfg.labels && s.kind !in Structural
    else
      IsWord(s.kind) && s.kind in cfg.labels && Classify(cfg, cfg.matchers, s.kind) == s.kind
      && s.kind !in Structural
      && s.value == "" && forall i :: 0 <= i < |s.children| ==> Printable(cfg, s.children[i])
  }

  /** The tokens the rendering of a tree consists of. */
  function TokensOf(s: Sexp): seq<Tok>
    decreases s, 1
  {
    if IsAtomic(s) && !EmptyForm(s) then [Tok(s.kind, s.value)]
    else [Tok("(", "("), Tok(s.kind, s.kind)] + (TokensOfAll(s.children) + [Tok(")", ")")])
  }

  function TokensOfAll(cs: seq<Sexp>): seq<Tok>
    decreases cs, 0
  {
    if |cs| == 0 then [] else TokensOf(cs[0]) + TokensOfAll(cs[1..])
  }

  /** A token that moves the lexer forward and is not the end of input. */
  predicate Advances(t: Tok) {
    t.kind != Unknown && t.kind != "eof"
  }

  /** The lexer, started at `lx`, reads the tokens `toks` in order. */
  predicate Lexes(cfg: LexConfig, lx: LexState, toks: seq<Tok>)
    decreases |toks|
  {
    |toks| == 0 ||
    (var t := NextToken(cfg, lx); t.0 == Ok(toks[0]) && Advances(toks[0]) && Lexes(cfg, t.1, toks[1..]))
  }

  /** Where the lexer stands after reading `|toks|` tokens from `lx`. */
  function After(cfg: LexConfig, lx: LexState, toks: seq<Tok>): LexState
    decreases |toks|
  {
    if |toks| == 0 then lx else After(cfg, NextToken(cfg, lx).1, toks[1..])
  }

  lemma {:induction false} LexesAppend(cfg: LexConfig, lx: LexState, a: seq<Tok>, b: seq<Tok>)
    ensures Lexes(cfg, lx, a + b) <==> Lexes(cfg, lx, a) && Lexes(cfg, After(cfg, lx, a), b)
    ensures After(cfg, lx, a + b) == After(cfg, After(cfg, lx, a), b)
    decreases |a|
  {
    if |a| == 0 {
      assert a + b == b;
    } else {
      assert (a + b)[0] == a[0] && (a + b)[1..] == a[1..] + b;
      LexesAppend(cfg, NextToken(cfg, lx).1, a[1..], b);
    }
  }

  /** Reading advancing tokens keeps the lexer within the parser's bound. */
  lemma {:induction false} AfterBound(cfg: LexConfig, lx: LexState, toks: seq<Tok>)
    requires lx.pos <= Bound(lx, false) && Lexes(cfg, lx, toks)
    ensures After(cfg, lx, toks).input == lx.input
    ensures After(cfg, lx, toks).pos <= Bound(After(cfg, lx, toks), false)
    decreases |toks|
  {
    if |toks| > 0 {
      AfterBound(cfg, NextToken(cfg, lx).1, toks[1..]);
    }
  }

  /** Two lexer states that yield the same next token read the same tokens
      and end up yielding the same next token. */
  lemma SameNext(cfg: LexConfig, lx: LexState, lx': LexState, toks: seq<Tok>)
    requires NextToken(cfg, lx) == NextToken(cfg, lx')
    ensures Lexes(cfg, lx, toks) <==> Lexes(cfg, lx', toks)
    ensures |toks| > 0 ==> After(cfg, lx, toks) == After(cfg, lx', toks)
  {
  }

  lemma OneToken(cfg: LexConfig, lx: LexState, t: Tok)
    requires Lexes(cfg, lx, [t])
    ensures NextToken(cfg, lx) == (Ok(t), After(cfg, lx, [t]))
  {
    assert [t][1..] == [];
  }

  // ---------------------------------------------------------------------
  // The parser fed the tokens of a tree.

  lemma AllAdvance(cfg: LexConfig, lx: LexState, a: seq<Tok>, b: seq<Tok>)
    requires Lexes(cfg, lx, a + b)
    ensures Lexes(cfg, lx, a) && Lexes(cfg, After(cfg, lx, a), b)
    ensures After(cfg, lx, a + b) == After(cfg, After(cfg, lx, a), b)
  {
    LexesAppend(cfg, lx, a, b);
  }

  /** The tokens of a form, read from `lx`: the parenthesis, the head, the
      children's tokens, then the closing parenthesis. */
  lemma FormTokens(cfg: LexConfig, lx: LexState, s: Sexp)
    requires !(IsAtomic(s) && !EmptyForm(s)) && Lexes(cfg, lx, TokensOf(s))
    ensures var lxA := NextToken(cfg, lx).1;
            var lxB := NextToken(cfg, lxA).1;
            var lxC := After(cfg, lxB, TokensOfAll(s.children));
            NextToken(cfg, lx) == (Ok(Tok("(", "(")), lxA)
            && NextToken(cfg, lxA) == (Ok(Tok(s.kind, s.kind)), lxB) && Advances(Tok(s.kind, s.kind))
            && Lexes(cfg, lxB, TokensOfAll(s.children))
            && NextToken(cfg, lxC) == (Ok(Tok(")", ")")), After(cfg, lx, TokensOf(s)))
  {
    var o, h, c := Tok("(", "("), Tok(s.kind, s.kind), Tok(")", ")");
    var tc := TokensOfAll(s.children);
    var lxA := NextToken(cfg, lx).1;
    var lxB := NextToken(cfg, lxA).1;
    assert TokensOf(s) == [o] + ([h] + (tc + [c]));
    LexesAppend(cfg, lx, [o], [h] + (tc + [c]));
    assert [o][1..] == [];
    LexesAppend(cfg, lxA, [h], tc + [c]);
    assert [h][1..] == [];
    LexesAppend(cfg, lxB, tc, [c]);
    assert [c][1..] == [];
  }

  /** The tokens of a printable tree, read from `lx`, attach that tree as the
      last child of the innermost open node. */
  lemma {:induction false} TokensParse(cfg: LexConfig, lx: LexState, s: Sexp, st: Stack.ExpressionStack)
    requires Printable(cfg, s) && Lexes(cfg, lx, TokensOf(s))
    requires lx.pos <= Bound(lx, false) && !Stack.Empty(st)
    ensures After(cfg, lx, TokensOf(s)).pos <= Bound(After(cfg, lx, TokensOf(s)), false)
    ensures ParseLoop(cfg, lx, st, false)
            == ParseLoop(cfg, After(cfg, lx, TokensOf(s)), AppendToTop(st, s), false)
    decreases s, 2
  {
    if IsAtomic(s) && !EmptyForm(s) {
      AtomParse(cfg, lx, s, st);
    } else {
      FormParse(cfg, lx, s, st);
    }
  }

  lemma AtomParse(cfg: LexConfig, lx: LexState, s: Sexp, st: Stack.ExpressionStack)
    requires Printable(cfg, s) && IsAtomic(s) && !EmptyForm(s) && Lexes(cfg, lx, TokensOf(s))
    requires lx.pos <= Bound(lx, false) && !Stack.Empty(st)
    ensures After(cfg, lx, TokensOf(s)).pos <= Bound(After(cfg, lx, TokensOf(s)), false)
    ensures ParseLoop(cfg, lx, st, false)
            == ParseLoop(cfg, After(cfg, lx, TokensOf(s)), AppendToTop(st, s), false)
  {
    var t := Tok(s.kind, s.value);
    assert TokensOf(s) == [t];
    OneToken(cfg, lx, t);
    AtomStep(cfg, lx, st, t, After(cfg, lx, [t]));
    assert NewAtomic(s.kind, s.value) == s;
  }

  lemma {:induction false} FormParse(cfg: LexConfig, lx: LexState, s: Sexp, st: Stack.ExpressionStack)
    requires Printable(cfg, s) && !(IsAtomic(s) && !EmptyForm(s)) && Lexes(cfg, lx, TokensOf(s))
    requires lx.pos <= Bound(lx, false) && !Stack.Empty(st)
    ensures After(cfg, lx, TokensOf(s)).pos <= Bound(After(cfg, lx, TokensOf(s)), false)
    ensures ParseLoop(cfg, lx, st, false)
            == ParseLoop(cfg, After(cfg, lx, TokensOf(s)), AppendToTop(st, s), false)
    decreases s, 1
  {
    AfterBound(cfg, lx, TokensOf(s));
    FormTokens(cfg, lx, s);
    var lxA := NextToken(cfg, lx).1;
    var lxB := NextToken(cfg, lxA).1;
    var lxC := After(cfg, lxB, TokensOfAll(s.children));
    OpenStep(cfg, lx, st, lxA);
    HeadStep(cfg, lxA, st, Tok(s.kind, s.kind), lxB);
    var open := Stack.Push(st, NewSexpression(s.kind, []));
    TokensParseAll(cfg, lxB, s.children, open);
    FormStack(st, s);
    CloseStep(cfg, lxC, Stack.Push(st, s), After(cfg, lx, TokensOf(s)));
  }

  /** Opening a form, attaching its children and closing it attaches the
      form. */
  lemma FormStack(st: Stack.ExpressionStack, s: Sexp)
    requires !Stack.Empty(st) && s.value == ""
    ensures AppendAll(Stack.Push(st, NewSexpression(s.kind, [])), s.children) == Stack.Push(st, s)
    ensures Close(Stack.Push(st, s)) == AppendToTop(st, s)
  {
    AppendAllToPushed(st, NewSexpression(s.kind, []), s.children);
    assert [] + s.children == s.children;
    assert Sexp(s.kind, s.children, "") == s;
    CloseAfterPush(st, s);
  }

  lemma {:induction false} TokensParseAll(cfg: LexConfig, lx: LexState, cs: seq<Sexp>, st: Stack.ExpressionStack)
    requires (forall i :: 0 <= i < |cs| ==> Printable(cfg, cs[i])) && Lexes(cfg, lx, TokensOfAll(cs))
    requires lx.pos <= Bound(lx, false) && !Stack.Empty(st)
    ensures After(cfg, lx, TokensOfAll(cs)).pos <= Bound(After(cfg, lx, TokensOfAll(cs)), false)
    ensures ParseLoop(cfg, lx, st, false)
            == ParseLoop(cfg, After(cfg, lx, TokensOfAll(cs)), AppendAll(st, cs), false)
    decreases cs, 0
  {
    AfterBound(cfg, lx, TokensOfAll(cs));
    if |cs| > 0 {
      AllAdvance(cfg, lx, TokensOf(cs[0]), TokensOfAll(cs[1..]));
      TokensParse(cfg, lx, cs[0], st);
      TokensParseAll(cfg, After(cfg, lx, TokensOf(cs[0])), cs[1..], AppendToTop(st, cs[0]));
    }
  }

  /** The nodes `cs` attached in order below the innermost open node. */
  function AppendAll(st: Stack.ExpressionStack, cs: seq<Sexp>): Stack.ExpressionStack
    decreases |cs|
  {
    if |cs| == 0 then st else AppendAll(AppendToTop(st, cs[0]), cs[1..])
  }

  lemma {:induction false} AppendAllToPushed(st: Stack.ExpressionStack, n: Sexp, cs: seq<Sexp>)
    ensures AppendAll(Stack.Push(st, n), cs) == Stack.Push(st, Sexp(n.kind, n.children + cs, n.value))
    decreases |cs|
  {
    if |cs| == 0 {
      assert n.children + cs == n.children;
    } else {
      Stack.PopAfterPush(st, n);
      var n1 := Append(n, cs[0]);
      assert AppendToTop(Stack.Push(st, n), cs[0]) == Stack.Push(st, n1);
      AppendAllToPushed(st, n1, cs[1..]);
      assert n1.children + cs[1..] == n.children + cs;
    }
  }

  // ---------------------------------------------------------------------
  // The lexer reading a rendering.

  /** Started at `p`, the lexer reads the tokens `toks` and then, up to `e`,
      nothing but whitespace. The first token is stated by `FirstThen`, so
      that a proof sees what is read only where it unfolds both. */
  predicate LexesTo(cfg: LexConfig, input: string, p: nat, toks: seq<Tok>, e: nat)
    decreases |toks|, 1
  {
    if |toks| == 0 then SkipWS(input, p) == SkipWS(input, e) else FirstThen(cfg, input, p, toks, e)
  }

  predicate FirstThen(cfg: LexConfig, input: string, p: nat, toks: seq<Tok>, e: nat)
    requires |toks| > 0
    decreases |toks|, 0
  {
    var t := NextToken(cfg, LexState(input, p));
    t.0 == Ok(toks[0]) && Advances(toks[0]) && LexesTo(cfg, input, t.1.pos, toks[1..], e)
  }

  lemma LexesToUnfold(cfg: LexConfig, input: string, p: nat, toks: seq<Tok>, e: nat)
    requires |toks| > 0
    ensures var t := NextToken(cfg, LexState(input, p));
            LexesTo(cfg, input, p, toks, e)
            <==> t.0 == Ok(toks[0]) && Advances(toks[0]) && LexesTo(cfg, input, t.1.pos, toks[1..], e)
  {
  }

  /** What `LexesTo` says in terms of `Lexes` and `After`. */
  lemma {:induction false} LexesToLexes(cfg: LexConfig, input: string, p: nat, toks: seq<Tok>, e: nat)
    requires LexesTo(cfg, input, p, toks, e)
    ensures var a := After(cfg, LexState(input, p), toks);
            Lexes(cfg, LexState(input, p), toks) && a.input == input && SkipWS(input, a.pos) == SkipWS(input, e)
    decreases |toks|
  {
    if |toks| > 0 {
      LexesToUnfold(cfg, input, p, toks, e);
      var t := NextToken(cfg, LexState(input, p));
      assert t.1 == LexState(input, t.1.pos);
      LexesToLexes(cfg, input, t.1.pos, toks[1..], e);
    }
  }

  lemma {:induction false} ComposeTo(cfg: LexConfig, input: string, p: nat, a: seq<Tok>, m: nat, b: seq<Tok>, e: nat)
    requires LexesTo(cfg, input, p, a, m) && LexesTo(cfg, input, m, b, e)
    ensures LexesTo(cfg, input, p, a + b, e)
    decreases |a|
  {
    if |a| == 0 {
      assert a + b == b;
      SkipSame(cfg, input, p, m, b, e);
    } else {
      LexesToUnfold(cfg, input, p, a, m);
      var q := NextToken(cfg, LexState(input, p)).1.pos;
      ComposeTo(cfg, input, q, a[1..], m, b, e);
      ComposeStep(cfg, input, p, a, b, e);
    }
  }

  /** The first token of `a` followed by the rest of `a` and then `b`. */
  lemma ComposeStep(cfg: LexConfig, input: string, p: nat, a: seq<Tok>, b: seq<Tok>, e: nat)
    requires |a| > 0
    requires var t := NextToken(cfg, LexState(input, p));
             t.0 == Ok(a[0]) && Advances(a[0]) && LexesTo(cfg, input, t.1.pos, a[1..] + b, e)
    ensures LexesTo(cfg, input, p, a + b, e)
  {
    LexesToUnfold(cfg, input, p, a + b, e);
    assert (a + b)[0] == a[0] && (a + b)[1..] == a[1..] + b;
  }

  /** Leading whitespace does not change what is read. */
  lemma SkipSame(cfg: LexConfig, input: string, p: nat, m: nat, b: seq<Tok>, e: nat)
    requires SkipWS(input, p) == SkipWS(input, m) && LexesTo(cfg, input, m, b, e)
    ensures LexesTo(cfg, input, p, b, e)
  {
    if |b| > 0 {
      LexesToUnfold(cfg, input, p, b, e);
      LexesToUnfold(cfg, input, m, b, e);
      assert NextToken(cfg, LexState(input, p)) == NextToken(cfg, LexState(input, m));
    }
  }

  /** One token, then whitespace up to `e`. */
  lemma TokenTo(cfg: LexConfig, input: string, p: nat, t: Tok, p1: nat, e: nat)
    requires NextToken(cfg, LexState(input, p)) == (Ok(t), LexState(input, p1)) && Advances(t)
    requires SkipWS(input, p1) == SkipWS(input, e)
    ensures LexesTo(cfg, input, p, [t], e)
  {
    LexesToUnfold(cfg, input, p, [t], e);
    assert [t][1..] == [];
  }

  /** A piece of a text found at `p` in the input is found at the matching
      offset. */
  lemma Slice(input: string, p: nat, a: string, b: string, c: string)
    requires p + |a + b + c| <= |input| && input[p..p + |a + b + c|] == a + b + c
    ensures p + |a| + |b| <= |input| && input[p + |a|..p + |a| + |b|] == b
  {
    var t := a + b + c;
    assert forall k :: 0 <= k < |b| ==> input[p + |a| + k] == t[|a| + k] == b[k];
  }

  lemma CharAtSlice(input: string, p: nat, t: string, k: nat)
    requires p + |t| <= |input| && input[p..p + |t|] == t && k < |t|
    ensures input[p + k] == t[k]
  {
  }

  lemma SpaceSkipped(input: string, a: nat, b: nat)
    requires a < |input| && input[a] == ' ' && b == a + 1
    ensures SkipWS(input, a) == SkipWS(input, b)
  {
  }

  /** `(kind `: the parenthesis, the kind, then a space. */
  lemma OpenToken(cfg: LexConfig, input: string, p: nat, k: string)
    requires "(" in cfg.labels
    requires p + |k| + 2 <= |input| && input[p..p + |k| + 2] == "(" + k + " "
    ensures NextToken(cfg, LexState(input, p)) == (Ok(Tok("(", "(")), LexState(input, p + 1))
  {
    CharAtSlice(input, p, "(" + k + " ", 0);
    PunctuationToken(cfg, input, p);
    assert [input[p]] == "(";
  }

  lemma KindToken(cfg: LexConfig, input: string, p: nat, k: string)
    requires IsWord(k) && k in cfg.labels && Classify(cfg, cfg.matchers, k) == k
    requires p + |k| + 2 <= |input| && input[p..p + |k| + 2] == "(" + k + " "
    ensures NextToken(cfg, LexState(input, p + 1)) == (Ok(Tok(k, k)), LexState(input, p + |k| + 1))
    ensures input[p + |k| + 1] == ' '
  {
    CharAtSlice(input, p, "(" + k + " ", |k| + 1);
    Slice(input, p, "(", k, " ");
    WordToken(cfg, input, p + 1, k);
  }

  lemma HeadLexes(cfg: LexConfig, input: string, p: nat, k: string, q: nat)
    requires "(" in cfg.labels && IsWord(k) && k in cfg.labels && Classify(cfg, cfg.matchers, k) == k
    requires k != "eof"
    requires p + |k| + 2 <= |input| && input[p..p + |k| + 2] == "(" + k + " " && q == p + |k| + 2
    ensures LexesTo(cfg, input, p, [Tok("(", "("), Tok(k, k)], q)
  {
    OpenLexes(cfg, input, p, k);
    KindLexes(cfg, input, p, k, q);
    ComposeTo(cfg, input, p, [Tok("(", "(")], p + 1, [Tok(k, k)], q);
    assert [Tok("(", "(")] + [Tok(k, k)] == [Tok("(", "("), Tok(k, k)];
  }

  lemma OpenLexes(cfg: LexConfig, input: string, p: nat, k: string)
    requires "(" in cfg.labels
    requires p + |k| + 2 <= |input| && input[p..p + |k| + 2] == "(" + k + " "
    ensures LexesTo(cfg, input, p, [Tok("(", "(")], p + 1)
  {
    OpenToken(cfg, input, p, k);
    TokenTo(cfg, input, p, Tok("(", "("), p + 1, p + 1);
  }

  lemma KindLexes(cfg: LexConfig, input: string, p: nat, k: string, q: nat)
    requires IsWord(k) && k in cfg.labels && Classify(cfg, cfg.matchers, k) == k && k != "eof"
    requires p + |k| + 2 <= |input| && input[p..p + |k| + 2] == "(" + k + " " && q == p + |k| + 2
    ensures LexesTo(cfg, input, p + 1, [Tok(k, k)], q)
  {
    KindToken(cfg, input, p, k);
    SpaceSkipped(input, p + |k| + 1, q);
    TokenTo(cfg, input, p + 1, Tok(k, k), p + |k| + 1, q);
  }

  /** `) `: the closing parenthesis, then a space. */
  lemma CloseLexes(cfg: LexConfig, input: string, em: nat, e: nat)
    requires ")" in cfg.labels
    requires e <= |input| && e == em + 2 && input[em] == ')' && input[em + 1] == ' '
    ensures LexesTo(cfg, input, em, [Tok(")", ")")], e)
  {
    PunctuationToken(cfg, input, em);
    assert [input[em]] == ")";
    SpaceSkipped(input, em + 1, e);
    TokenTo(cfg, input, em, Tok(")", ")"), em + 1, e);
  }

  /** A string literal and the space after it. */
  lemma StringLexes(cfg: LexConfig, input: string, p: nat, v: string, e: nat)
    requires "string" in cfg.labels && forall i :: 0 <= i < |v| ==> v[i] != '"' && v[i] != '\0'
    requires p + |v| + 2 <= |input| && input[p..p + |v| + 2] == "\"" + v + "\""
    requires e == p + |v| + 3 && e <= |input| && input[e - 1] == ' '
    ensures LexesTo(cfg, input, p, [Tok("string", v)], e)
  {
    StringToken(cfg, input, p, v);
    SpaceSkipped(input, e - 1, e);
    TokenTo(cfg, input, p, Tok("string", v), e - 1, e);
  }

  /** A word literal and the space after it. */
  lemma WordLexes(cfg: LexConfig, input: string, p: nat, k: string, v: string, e: nat)
    requires IsWord(v) && Classify(cfg, cfg.matchers, v) == k && k in cfg.labels && Advances(Tok(k, v))
    requires p + |v| <= |input| && input[p..p + |v|] == v
    requires e == p + |v| + 1 && e <= |input| && input[e - 1] == ' '
    ensures LexesTo(cfg, input, p, [Tok(k, v)], e)
  {
    WordThenSpace(cfg, input, p, k, v, e);
    TokenTo(cfg, input, p, Tok(k, v), e - 1, e);
  }

  lemma WordThenSpace(cfg: LexConfig, input: string, p: nat, k: string, v: string, e: nat)
    requires IsWord(v) && Classify(cfg, cfg.matchers, v) == k && k in cfg.labels
    requires p + |v| <= |input| && input[p..p + |v|] == v
    requires e == p + |v| + 1 && e <= |input| && input[e - 1] == ' '
    ensures NextToken(cfg, LexState(input, p)) == (Ok(Tok(k, v)), LexState(input, e - 1))
    ensures SkipWS(input, e - 1) == SkipWS(input, e)
  {
    assert CharAt(input, p + |v|) == ' ';
    WordToken(cfg, input, p, v);
    SpaceSkipped(input, e - 1, e);
  }

  lemma AtomLexes(cfg: LexConfig, input: string, p: nat, s: Sexp, e: nat)
    requires IsAtomic(s) && !EmptyForm(s) && Printable(cfg, s)
    requires p + |ShowParseable(s)| <= |input| && input[p..p + |ShowParseable(s)|] == ShowParseable(s)
    requires e == p + |ShowParseable(s)|
    ensures LexesTo(cfg, input, p, TokensOf(s), e)
  {
    assert TokensOf(s) == [Tok(s.kind, s.value)];
    if s.kind == "string" {
      StringPieces(input, p, s.value, e);
      StringLexes(cfg, input, p, s.value, e);
    } else {
      WordPieces(input, p, s.value, e);
      WordLexes(cfg, input, p, s.kind, s.value, e);
    }
  }

  lemma StringPieces(input: string, p: nat, v: string, e: nat)
    requires p + |v| + 3 <= |input| && input[p..p + |v| + 3] == "\"" + v + "\" "
    requires e == p + |v| + 3
    ensures input[p..p + |v| + 2] == "\"" + v + "\"" && input[e - 1] == ' '
  {
    var t := "\"" + v + "\" ";
    assert t == "\"" + v + "\"" + " ";
    Slice(input, p, "", "\"" + v + "\"", " ");
    assert "" + ("\"" + v + "\"") == "\"" + v + "\"";
    CharAtSlice(input, p, t, |t| - 1);
  }

  lemma WordPieces(input: string, p: nat, v: string, e: nat)
    requires p + |v| + 1 <= |input| && input[p..p + |v| + 1] == v + " "
    requires e == p + |v| + 1
    ensures input[p..p + |v|] == v && input[e - 1] == ' '
  {
    Slice(input, p, "", v, " ");
    assert "" + v == v;
    CharAtSlice(input, p, v + " ", |v|);
  }

  /** The pieces of the rendering of a form. */
  lemma FormPieces(input: string, p: nat, s: Sexp, q: nat, em: nat, e: nat)
    requires !(IsAtomic(s) && !EmptyForm(s)) && s.value == ""
    requires p + |ShowParseable(s)| <= |input| && input[p..p + |ShowParseable(s)|] == ShowParseable(s)
    requires q == p + |s.kind| + 2 && em == q + |ShowAllParseable(s.children)| && e == p + |ShowParseable(s)|
    ensures input[p..p + |s.kind| + 2] == "(" + s.kind + " "
    ensures q + |ShowAllParseable(s.children)| <= |input|
    ensures input[q..q + |ShowAllParseable(s.children)|] == ShowAllParseable(s.children)
    ensures e == em + 2 && e <= |input| && input[em] == ')' && input[em + 1] == ' '
  {
    var k, m, t := s.kind, ShowAllParseable(s.children), ShowParseable(s);
    assert t == "(" + k + " " + m + ") " by {
      assert t == "(" + s.kind + " " + s.value + ShowAllParseable(s.children) + ") ";
      assert "(" + k + " " + "" == "(" + k + " ";
    }
    FormSlices(input, p, k, m);
  }

  /** The pieces of a text `(k m) ` found at `p`. */
  lemma FormSlices(input: string, p: nat, k: string, m: string)
    requires p + |k| + |m| + 4 <= |input| && input[p..p + |k| + |m| + 4] == "(" + k + " " + m + ") "
    ensures input[p..p + |k| + 2] == "(" + k + " "
    ensures input[p + |k| + 2..p + |k| + 2 + |m|] == m
    ensures input[p + |k| + 2 + |m|] == ')' && input[p + |k| + 3 + |m|] == ' '
  {
    var t := "(" + k + " " + m + ") ";
    assert t == ("(" + k + " ") + (m + ") ");
    SplitAt(input, p, "(" + k + " ", m + ") ");
    SplitAt(input, p + |k| + 2, m, ") ");
    CharAtSlice(input, p + |k| + 2 + |m|, ") ", 0);
    CharAtSlice(input, p + |k| + 2 + |m|, ") ", 1);
  }

  /** The rendering of a printable tree, found at `p` and ending before `e`,
      reads as its tokens. */
  lemma {:induction false} ShowLexes(cfg: LexConfig, input: string, p: nat, s: Sexp, e: nat)
    requires {"(", ")"} <= cfg.labels && Printable(cfg, s)
    requires p + |ShowParseable(s)| <= |input| && input[p..p + |ShowParseable(s)|] == ShowParseable(s)
    requires e == p + |ShowParseable(s)|
    ensures LexesTo(cfg, input, p, TokensOf(s), e)
    decreases s, 2
  {
    if IsAtomic(s) && !EmptyForm(s) {
      AtomLexes(cfg, input, p, s, e);
    } else {
      FormLexes(cfg, input, p, s, e);
    }
  }

  lemma {:induction false} FormLexes(cfg: LexConfig, input: string, p: nat, s: Sexp, e: nat)
    requires {"(", ")"} <= cfg.labels && Printable(cfg, s) && !(IsAtomic(s) && !EmptyForm(s))
    requires p + |ShowParseable(s)| <= |input| && input[p..p + |ShowParseable(s)|] == ShowParseable(s)
    requires e == p + |ShowParseable(s)|
    ensures LexesTo(cfg, input, p, TokensOf(s), e)
    decreases s, 1
  {
    var q := p + |s.kind| + 2;
    var em := q + |ShowAllParseable(s.children)|;
    FormPieces(input, p, s, q, em, e);
    HeadLexes(cfg, input, p, s.kind, q);
    ShowAllLexes(cfg, input, q, s.children, em);
    CloseLexes(cfg, input, em, e);
    var h, tc, c := [Tok("(", "("), Tok(s.kind, s.kind)], TokensOfAll(s.children), [Tok(")", ")")];
    ComposeTo(cfg, input, p, h, q, tc, em);
    ComposeTo(cfg, input, p, h + tc, em, c, e);
    assert TokensOf(s) == h + tc + c;
  }

  /** The pieces of the rendering of a sequence of trees. */
  lemma AllPieces(input: string, p: nat, cs: seq<Sexp>, mid: nat)
    requires |cs| > 0
    requires p + |ShowAllParseable(cs)| <= |input| && input[p..p + |ShowAllParseable(cs)|] == ShowAllParseable(cs)
    requires mid == p + |ShowParseable(cs[0])|
    ensures mid <= |input| && input[p..mid] == ShowParseable(cs[0])
    ensures mid + |ShowAllParseable(cs[1..])| <= |input|
    ensures input[mid..mid + |ShowAllParseable(cs[1..])|] == ShowAllParseable(cs[1..])
    ensures mid + |ShowAllParseable(cs[1..])| == p + |ShowAllParseable(cs)|
  {
    var h := ShowParseable(cs[0]);
    var rest := ShowAllParseable(cs[1..]);
    assert ShowAllParseable(cs) == h + rest;
    SplitAt(input, p, h, rest);
  }

  /** A text found at `p` that is the concatenation of two pieces: each
      piece is found at its own offset. */
  lemma SplitAt(input: string, p: nat, h: string, rest: string)
    requires p + |h| + |rest| <= |input| && input[p..p + |h| + |rest|] == h + rest
    ensures input[p..p + |h|] == h && input[p + |h|..p + |h| + |rest|] == rest
  {
    var t := h + rest;
    assert forall k :: 0 <= k < |h| ==> input[p + k] == t[k] == h[k];
    assert forall k :: 0 <= k < |rest| ==> input[p + |h| + k] == t[|h| + k] == rest[k];
  }

  lemma {:induction false} ShowAllLexes(cfg: LexConfig, input: string, p: nat, cs: seq<Sexp>, e: nat)
    requires {"(", ")"} <= cfg.labels && forall i :: 0 <= i < |cs| ==> Printable(cfg, cs[i])
    requires p + |ShowAllParseable(cs)| <= |input| && input[p..p + |ShowAllParseable(cs)|] == ShowAllParseable(cs)
    requires e == p + |ShowAllParseable(cs)|
    ensures LexesTo(cfg, input, p, TokensOfAll(cs), e)
    decreases cs, 0
  {
    if |cs| > 0 {
      var mid := p + |ShowParseable(cs[0])|;
      AllPieces(input, p, cs, mid);
      ShowLexes(cfg, input, p, cs[0], mid);
      ShowAllLexes(cfg, input, mid, cs[1..], e);
      ComposeTo(cfg, input, p, TokensOf(cs[0]), mid, TokensOfAll(cs[1..]), e);
      assert TokensOfAll(cs) == TokensOf(cs[0]) + TokensOfAll(cs[1..]);
    }
  }

  /** Past the rendering there is only the end of the input. */
  lemma EofAfter(cfg: LexConfig, input: string, x: LexState)
    requires "eof" in cfg.labels && x.input == input && SkipWS(input, x.pos) == SkipWS(input, |input|)
    ensures NextToken(cfg, x) == (Ok(Tok("eof", "")), LexState(input, |input| + 1))
  {
    assert x == LexState(input, x.pos);
    EndOfInputIsEof(cfg, LexState(input, |input|));
  }

  // ---------------------------------------------------------------------
  // The round trip.

  /** The parser fed the tokens of printable trees, then the end of input,
      returns the root holding them. */
  lemma TokensParseRoot(cfg: LexConfig, lx: LexState, cs: seq<Sexp>, v: string, lxE: LexState)
    requires forall i :: 0 <= i < |cs| ==> Printable(cfg, cs[i])
    requires lx.pos == 0 && Lexes(cfg, lx, TokensOfAll(cs))
    requires NextToken(cfg, After(cfg, lx, TokensOfAll(cs))) == (Ok(Tok("eof", v)), lxE)
    ensures ParseLoop(cfg, lx, Stack.Push(Stack.NewExpressionStack(), Root()), false)
            == Ok(Stack.Push(Stack.NewExpressionStack(), NewSexpression("root", cs)))
  {
    var st0 := Stack.Push(Stack.NewExpressionStack(), Root());
    TokensParseAll(cfg, lx, cs, st0);
    AppendAllToPushed(Stack.NewExpressionStack(), Root(), cs);
    assert [] + cs == cs;
    EofStep(cfg, After(cfg, lx, TokensOfAll(cs)), AppendAll(st0, cs), v, lxE);
  }

  /** Round trip: the root holding printable trees is what the parser reads
      back from their parseable rendering. */
  lemma ParseShowAll(cfg: LexConfig, cs: seq<Sexp>)
    requires {"(", ")", "eof"} <= cfg.labels
    requires forall i :: 0 <= i < |cs| ==> Printable(cfg, cs[i])
    ensures Parse(cfg, ShowAllParseable(cs)) == Ok(NewSexpression("root", cs))
  {
    var input := ShowAllParseable(cs);
    assert input[0..|input|] == input;
    ShowAllLexes(cfg, input, 0, cs, |input|);
    LexesToLexes(cfg, input, 0, TokensOfAll(cs), |input|);
    EofAfter(cfg, input, After(cfg, NewLexer(input), TokensOfAll(cs)));
    TokensParseRoot(cfg, NewLexer(input), cs, "", LexState(input, |input| + 1));
  }

  /** As written, the rendering of an empty form is a lone space, so the form
      does not come back: its rendering parses to an empty root. */
  lemma EmptyFormLost(cfg: LexConfig)
    requires {"(", ")", "eof"} <= cfg.labels
    ensures var form := NewSexpression("bindings", []);
            EmptyForm(form) && ShowAll([form]) == " "
            && Parse(cfg, ShowAll([form])) == Ok(NewSexpression("root", []))
            && Parse(cfg, ShowAll([form])) != Ok(NewSexpression("root", [form]))
  {
    var input := " ";
    var st0 := Stack.Push(Stack.NewExpressionStack(), Root());
    SpaceStep(cfg, input, 0, st0, false);
    EndOfInputIsEof(cfg, LexState(input, 1));
    EofStep(cfg, LexState(input, 1), st0, "", LexState(input, 2));
  }

  /** The rendering as written round-trips whenever the trees hold no empty
      form. */
  lemma ParseExpressionStrings(cfg: LexConfig, cs: seq<Sexp>)
    requires {"(", ")", "eof"} <= cfg.labels
    requires forall i :: 0 <= i < |cs| ==> Printable(cfg, cs[i]) && NoEmptyForms(cs[i])
    ensures Parse(cfg, ShowAll(cs)) == Ok(NewSexpression("root", cs))
  {
    ShowAllAgrees(cs);
    ParseShowAll(cfg, cs);
  }
}
