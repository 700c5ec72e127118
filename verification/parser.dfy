/** The parser (parser/parser.go): turns the token stream into a tree rooted
    at a "root" node, using a stack of the nodes still open.

    The Go code appends a node to its parent as soon as the node is opened
    and keeps a pointer to it on the stack. Here a node is attached to the
    node below it when it is popped. Both build the same tree: while a node
    is open, everything between it and the bottom of the stack is blocked
    from receiving children, so its later siblings are appended after it
    either way; nodes still open at the end only exist on error paths,
    where no tree is returned. */
module Parser {

  import opened Outcomes
  import opened Text
  import opened Sexpr
  import opened Lexer
  import Stack = ExprStack

  /** The labels the parser treats specially rather than as atoms. */
  const Structural: set<string> := {"eof", "", "(", ")", "[", "]", "{", "}", ","}

  /** Attaches `child` as the last child of the innermost open node. */
  function AppendToTop(st: Stack.ExpressionStack, child: Sexp): (r: Stack.ExpressionStack)
    ensures Stack.Len(r) == Stack.Len(st)
    ensures !Stack.Empty(st) ==>
              r.data == st.data[..Stack.Len(st) - 1] + [Append(st.data[Stack.Len(st) - 1], child)]
  {
    match Stack.Pop(st)
    case (Ok(top), below) => Stack.Push(below, Append(top, child))
    case (Fail(_), _) => st
  }

  /** `stack.Pop()` on a closing token: the innermost open node is done and
      becomes the last child of the node below it. Popping the last open
      node leaves the stack empty; popping an empty stack changes nothing. */
  function Close(st: Stack.ExpressionStack): (r: Stack.ExpressionStack)
    ensures Stack.Len(st) >= 2 ==>
              r == AppendToTop(Stack.ExpressionStack(st.data[..Stack.Len(st) - 1]), st.data[Stack.Len(st) - 1])
    ensures Stack.Len(st) < 2 ==> Stack.Empty(r)
  {
    match Stack.Pop(st)
    case (Ok(top), below) => if Stack.Empty(below) then below else AppendToTop(below, top)
    case (Fail(_), _) => st
  }

  /** What one pass of the loop of `Parse` does: stop with an outcome, or
      go on from a later lexer position with a new stack. */
  datatype Step =
    | Done(result: Outcome<Stack.ExpressionStack>)
    | Continue(lx: LexState, st: Stack.ExpressionStack, head: bool)

  /** The lexer positions a pass may start from: one past the eof token in
      general, and only up to just past the end when the token is the head
      of a form (the `(` before it was not eof). */
  function Bound(lx: LexState, head: bool): nat {
    |lx.input| + if head then 1 else 2
  }

  /** One pass of the loop reads one token and acts on it. `head` says the
      previous token was `(`: the Go loop then reads this token inside the
      same iteration, as the name of the new form. */
  function ParseStep(cfg: LexConfig, lx: LexState, st: Stack.ExpressionStack, head: bool): (r: Step)
    requires lx.pos <= Bound(lx, head)
    ensures r.Continue? ==> r.lx.input == lx.input && lx.pos < r.lx.pos <= Bound(r.lx, r.head)
  {
    if head then OpenNode(NextToken(cfg, lx), st) else StepOn(NextToken(cfg, lx), st)
  }

  /** A token outside a form head. The eof token ends the loop with the
      stack as it is; any other token needs an open node to work on. */
  function StepOn(t: (Outcome<Tok>, LexState), st: Stack.ExpressionStack): (r: Step)
    ensures r.Continue? ==> t.0.Ok? && t.0.value.kind != "eof" && t.0.value.kind != Unknown
    ensures r.Continue? ==> r.lx == t.1 && (r.head ==> !Stack.Empty(r.st))
  {
    var (tok, lx1) := t;
    if tok.Fail? then Done(Fail(tok.error))
    else if tok.value.kind == "eof" then Done(Ok(st))
    else
      match Stack.Peek(st)
      case Fail(e) => Done(Fail(e))
      case Ok(parent) =>
        if tok.value.kind == "(" then Continue(lx1, st, true)
        else Act(tok.value, parent, lx1, st)
  }

  /** After `(`: the token names the new node and its text is dropped. Any
      kind but the unknown one will do, eof and punctuation included. */
  function OpenNode(t: (Outcome<Tok>, LexState), st: Stack.ExpressionStack): (r: Step)
    ensures r.Continue? ==> r.lx == t.1 && t.0.Ok? && t.0.value.kind != Unknown && !r.head
  {
    var (h, lx2) := t;
    if h.Fail? then Done(Fail(h.error))
    else if h.value.kind == Unknown then
      Done(Fail(Error("unable to infer expression kind: " + h.value.value)))
    else Continue(lx2, Stack.Push(st, NewSexpression(h.value.kind, [])), false)
  }

  /** `,`: the innermost open node must be a pair inside a dict; the pair is
      closed and a new one opened in the same dict. */
  function NextPair(parent: Sexp, lx1: LexState, st: Stack.ExpressionStack): (r: Step)
    ensures r.Continue? ==> r.lx == lx1 && !r.head
  {
    if parent.kind != "pair" then Done(Fail(Error("invalid dictionary format " + parent.kind)))
    else
      var st1 := Close(st);
      match Stack.Peek(st1)
      case Fail(e) => Done(Fail(e))
      case Ok(dict) =>
        if dict.kind != "dict" then Done(Fail(Error("invalid dictionary format " + dict.kind)))
        else Continue(lx1, Stack.Push(st1, NewSexpression("pair", [])), false)
  }

  /** `}`: the innermost open node must be a pair inside a dict; both are
      closed. */
  function CloseDict(parent: Sexp, lx1: LexState, st: Stack.ExpressionStack): (r: Step)
    ensures r.Continue? ==> r.lx == lx1 && !r.head
  {
    if parent.kind != "pair" then Done(Fail(Error("invalid dictionary format")))
    else
      var st1 := Close(st);
      match Stack.Peek(st1)
      case Fail(e) => Done(Fail(e))
      case Ok(dict) =>
        if dict.kind != "dict" then Done(Fail(Error("invalid dictionary format")))
        else Continue(lx1, Close(st1), false)
  }

  /** Any token but eof and `(`, with `parent` the innermost open node. */
  function Act(tok: Tok, parent: Sexp, lx1: LexState, st: Stack.ExpressionStack): (r: Step)
    ensures r.Continue? ==> r.lx == lx1 && !r.head
    ensures r.Continue? ==> tok.kind != Unknown
  {
    if tok.kind == ")" || tok.kind == "]" then
      Continue(lx1, Close(st), false)
    else if tok.kind == "[" then
      Continue(lx1, Stack.Push(st, NewSexpression("vec", [])), false)
    else if tok.kind == "{" then
      Continue(lx1, Stack.Push(Stack.Push(st, NewSexpression("dict", [])), NewSexpression("pair", [])), false)
    else if tok.kind == "," then NextPair(parent, lx1, st)
    else if tok.kind == "}" then CloseDict(parent, lx1, st)
    else if tok.kind == Unknown then
      Done(Fail(Error("unable to infer expression kind: " + tok.value)))
    else
      Continue(lx1, AppendToTop(st, NewAtomic(tok.kind, tok.value)), false)
  }

  /** The loop of `Parse`: passes until one stops. The result is the stack
      of nodes still open. */
  function ParseLoop(cfg: LexConfig, lx: LexState, st: Stack.ExpressionStack, head: bool): Outcome<Stack.ExpressionStack>
    requires lx.pos <= Bound(lx, head)
    decreases |lx.input| + 3 - lx.pos
  {
    match ParseStep(cfg, lx, st, head)
    case Done(r) => r
    case Continue(lx1, st1, head1) => ParseLoop(cfg, lx1, st1, head1)
  }

  /** The empty root, the only open node when parsing starts. */
  function Root(): (r: Sexp)
    ensures r.kind == "root" && r.children == [] && r.value == ""
  {
    NewSexpression("root", [])
  }

  /** `Parse`: the tree is accepted only if exactly the root is still open
      once the tokens run out. */
  function Parse(cfg: LexConfig, input: string): (r: Outcome<Sexp>)
  {
    var st :- ParseLoop(cfg, NewLexer(input), Stack.Push(Stack.NewExpressionStack(), Root()), false);
    if Stack.Len(st) != 1 then Fail(Error("expression invalid")) else Ok(st.data[0])
  }

  // ---------------------------------------------------------------------
  // What every parse produces.

  /** The open nodes as the parser keeps them: every one is a normal tree
      built by a constructor of compound nodes, and the bottom one is the
      root. */
  predicate OpenNodes(st: Stack.ExpressionStack) {
    (forall i :: 0 <= i < |st.data| ==> Normal(st.data[i]) && st.data[i].value == "")
    && (|st.data| > 0 ==> st.data[0].kind == "root")
  }

  lemma AppendKeepsNormal(parent: Sexp, child: Sexp)
    requires Normal(parent) && parent.value == "" && Normal(child)
    ensures Normal(Append(parent, child)) && Append(parent, child).value == ""
  {
    var r := Append(parent, child);
    assert forall i :: 0 <= i < |r.children| ==> r.children[i] == if i < |parent.children| then parent.children[i] else child;
  }

  lemma AppendToTopKeepsOpenNodes(st: Stack.ExpressionStack, child: Sexp)
    requires OpenNodes(st) && Normal(child)
    ensures OpenNodes(AppendToTop(st, child))
  {
    if !Stack.Empty(st) {
      AppendKeepsNormal(st.data[|st.data| - 1], child);
    }
  }

  lemma CloseKeepsOpenNodes(st: Stack.ExpressionStack)
    requires OpenNodes(st)
    ensures OpenNodes(Close(st))
  {
    if Stack.Len(st) >= 2 {
      var below := Stack.ExpressionStack(st.data[..|st.data| - 1]);
      assert OpenNodes(below);
      AppendToTopKeepsOpenNodes(below, st.data[|st.data| - 1]);
    }
  }

  lemma PushKeepsOpenNodes(st: Stack.ExpressionStack, n: Sexp)
    requires OpenNodes(st) && !Stack.Empty(st) && n.children == [] && n.value == ""
    ensures OpenNodes(Stack.Push(st, n))
  {
    var r := Stack.Push(st, n);
    assert r.data[|st.data|] == n;
    assert forall i :: 0 <= i < |st.data| ==> r.data[i] == st.data[i];
  }

  /** One pass keeps the open nodes as the parser keeps them; a form head
      always has a node to be pushed onto. */
  lemma StepKeepsOpenNodes(cfg: LexConfig, lx: LexState, st: Stack.ExpressionStack, head: bool)
    requires lx.pos <= Bound(lx, head)
    requires OpenNodes(st) && (head ==> !Stack.Empty(st))
    ensures var r := ParseStep(cfg, lx, st, head);
            (r.Done? && r.result.Ok? ==> OpenNodes(r.result.value))
            && (r.Continue? ==> OpenNodes(r.st) && (r.head ==> !Stack.Empty(r.st)))
  {
    var (t, lx1) := NextToken(cfg, lx);
    if head {
      if t.Ok? {
        PushKeepsOpenNodes(st, NewSexpression(t.value.kind, []));
      }
    } else if t.Ok? && t.value.kind != "eof" && !Stack.Empty(st) && t.value.kind != "(" {
      ActKeepsOpenNodes(t.value, st.data[|st.data| - 1], lx1, st);
    }
  }

  lemma DictStepKeepsOpenNodes(parent: Sexp, lx1: LexState, st: Stack.ExpressionStack)
    requires OpenNodes(st) && !Stack.Empty(st)
    ensures NextPair(parent, lx1, st).Continue? ==> OpenNodes(NextPair(parent, lx1, st).st)
    ensures CloseDict(parent, lx1, st).Continue? ==> OpenNodes(CloseDict(parent, lx1, st).st)
  {
    var st1 := Close(st);
    CloseKeepsOpenNodes(st);
    if !Stack.Empty(st1) {
      PushKeepsOpenNodes(st1, NewSexpression("pair", []));
      CloseKeepsOpenNodes(st1);
    }
  }

  lemma ActKeepsOpenNodes(tok: Tok, parent: Sexp, lx1: LexState, st: Stack.ExpressionStack)
    requires OpenNodes(st) && !Stack.Empty(st)
    ensures Act(tok, parent, lx1, st).Continue? ==> OpenNodes(Act(tok, parent, lx1, st).st)
  {
    if tok.kind == ")" || tok.kind == "]" {
      CloseKeepsOpenNodes(st);
    } else if tok.kind == "[" {
      PushKeepsOpenNodes(st, NewSexpression("vec", []));
    } else if tok.kind == "{" {
      PushKeepsOpenNodes(st, NewSexpression("dict", []));
      PushKeepsOpenNodes(Stack.Push(st, NewSexpression("dict", [])), NewSexpression("pair", []));
    } else if tok.kind == "," {
      DictStepKeepsOpenNodes(parent, lx1, st);
    } else if tok.kind == "}" {
      DictStepKeepsOpenNodes(parent, lx1, st);
    } else {
      AppendToTopKeepsOpenNodes(st, NewAtomic(tok.kind, tok.value));
    }
  }

  lemma {:induction false} ParseLoopKeepsOpenNodes(cfg: LexConfig, lx: LexState, st: Stack.ExpressionStack, head: bool)
    requires lx.pos <= Bound(lx, head)
    requires OpenNodes(st) && (head ==> !Stack.Empty(st))
    ensures ParseLoop(cfg, lx, st, head).Ok? ==> OpenNodes(ParseLoop(cfg, lx, st, head).value)
    decreases |lx.input| + 3 - lx.pos
  {
    StepKeepsOpenNodes(cfg, lx, st, head);
    match ParseStep(cfg, lx, st, head)
    case Done(_) =>
    case Continue(lx1, st1, head1) => ParseLoopKeepsOpenNodes(cfg, lx1, st1, head1);
  }

  /** A successful parse returns a tree rooted at "root" whose compound nodes
      carry no value. */
  lemma ParseIsRooted(cfg: LexConfig, input: string)
    ensures Parse(cfg, input).Ok? ==>
              Parse(cfg, input).value.kind == "root" && Normal(Parse(cfg, input).value)
  {
    var st0 := Stack.Push(Stack.NewExpressionStack(), Root());
    assert st0.data == [Root()];
    ParseLoopKeepsOpenNodes(cfg, NewLexer(input), st0, false);
  }

  // ---------------------------------------------------------------------
  // The loop, one token at a time.

  /** The loop goes on exactly as its pass says. */
  lemma LoopUnfolds(cfg: LexConfig, lx: LexState, st: Stack.ExpressionStack, head: bool)
    requires lx.pos <= Bound(lx, head)
    ensures var r := ParseStep(cfg, lx, st, head);
            (r.Done? ==> ParseLoop(cfg, lx, st, head) == r.result)
            && (r.Continue? ==> ParseLoop(cfg, lx, st, head) == ParseLoop(cfg, r.lx, r.st, r.head))
  {
  }

  /** A token other than the structural ones becomes an atomic child of the
      innermost open node, with the token's kind and text. */
  lemma AtomStep(cfg: LexConfig, lx: LexState, st: Stack.ExpressionStack, tok: Tok, lx1: LexState)
    requires lx.pos <= Bound(lx, false) && !Stack.Empty(st)
    requires NextToken(cfg, lx) == (Ok(tok), lx1) && tok.kind !in Structural
    ensures lx1.pos <= Bound(lx1, false)
    ensures ParseLoop(cfg, lx, st, false) == ParseLoop(cfg, lx1, AppendToTop(st, NewAtomic(tok.kind, tok.value)), false)
  {
    LoopUnfolds(cfg, lx, st, false);
  }

  /** `(` makes the next token the head of a new form. */
  lemma OpenStep(cfg: LexConfig, lx: LexState, st: Stack.ExpressionStack, lx1: LexState)
    requires lx.pos <= Bound(lx, false) && !Stack.Empty(st)
    requires NextToken(cfg, lx) == (Ok(Tok("(", "(")), lx1)
    ensures lx1.pos <= Bound(lx1, true)
    ensures ParseLoop(cfg, lx, st, false) == ParseLoop(cfg, lx1, st, true)
  {
    LoopUnfolds(cfg, lx, st, false);
  }

  /** The head of a form, of any known kind, opens a node of that kind. */
  lemma HeadStep(cfg: LexConfig, lx: LexState, st: Stack.ExpressionStack, head: Tok, lx1: LexState)
    requires lx.pos <= Bound(lx, true)
    requires NextToken(cfg, lx) == (Ok(head), lx1) && head.kind != Unknown
    ensures lx1.pos <= Bound(lx1, false)
    ensures ParseLoop(cfg, lx, st, true) == ParseLoop(cfg, lx1, Stack.Push(st, NewSexpression(head.kind, [])), false)
  {
    LoopUnfolds(cfg, lx, st, true);
  }

  /** `)` closes the innermost open node. */
  lemma CloseStep(cfg: LexConfig, lx: LexState, st: Stack.ExpressionStack, lx1: LexState)
    requires lx.pos <= Bound(lx, false) && !Stack.Empty(st)
    requires NextToken(cfg, lx) == (Ok(Tok(")", ")")), lx1)
    ensures lx1.pos <= Bound(lx1, false)
    ensures ParseLoop(cfg, lx, st, false) == ParseLoop(cfg, lx1, Close(st), false)
  {
    LoopUnfolds(cfg, lx, st, false);
  }

  /** Outside a form head, the eof token ends the loop with the open nodes
      as they are. */
  lemma EofStep(cfg: LexConfig, lx: LexState, st: Stack.ExpressionStack, v: string, lx1: LexState)
    requires lx.pos <= Bound(lx, false)
    requires NextToken(cfg, lx) == (Ok(Tok("eof", v)), lx1)
    ensures ParseLoop(cfg, lx, st, false) == Ok(st)
  {
    LoopUnfolds(cfg, lx, st, false);
  }

  /** Whitespace between tokens changes nothing. */
  lemma SpaceStep(cfg: LexConfig, input: string, p: nat, st: Stack.ExpressionStack, head: bool)
    requires p < |input| && IsWhitespace(input[p])
    ensures ParseLoop(cfg, LexState(input, p), st, head) == ParseLoop(cfg, LexState(input, p + 1), st, head)
  {
    WhitespaceIsSkipped(cfg, LexState(input, p));
    LoopUnfolds(cfg, LexState(input, p), st, head);
    LoopUnfolds(cfg, LexState(input, p + 1), st, head);
  }

  /** Closing a node just pushed attaches it to the node below. */
  lemma CloseAfterPush(st: Stack.ExpressionStack, n: Sexp)
    requires !Stack.Empty(st)
    ensures Close(Stack.Push(st, n)) == AppendToTop(st, n)
  {
    Stack.PopAfterPush(st, n);
  }
}
