/** The evaluation pipeline (eval/evaluate.go): the source text is parsed,
    rewritten by the macros and walked by a fresh evaluator over the given
    environment. The order of the macro passes (Go's map order), the bound
    on nested `eval` and the lexer's float recognizer are parameters. */
module Pipeline {

  import opened Outcomes
  import opened Sexpr
  import opened Lexer
  import opened Values
  import opened Env
  import Parser
  import Processor
  import Thread = ThreadMacro
  import Quote = QuoteMacro
  import Evaluator
  import Roundtrip
  import Errors

  /** `EvaluateExpressionWithEnv`: the first error of the three stages is
      returned; the environment keeps whatever the walk did to it. */
  function EvaluateExpressionWithEnv(cfg: LexConfig, order: seq<Processor.Macro>, fuel: nat, input: string,
                                     env: Evaluator.ValidEnv): (r: (Outcome<Value>, Evaluator.ValidEnv))
    ensures Parser.Parse(cfg, input).Fail? ==> r == (Fail(Parser.Parse(cfg, input).error), env)
    ensures Parser.Parse(cfg, input).Ok? && Processor.ApplyMacros(order, Parser.Parse(cfg, input).value).Fail? ==>
              r == (Fail(Processor.ApplyMacros(order, Parser.Parse(cfg, input).value).error), env)
  {
    match Parser.Parse(cfg, input)
    case Fail(err) => (Fail(err), env)
    case Ok(tree) =>
      match Processor.ApplyMacros(order, tree)
      case Fail(err) => (Fail(err), env)
      case Ok(rewritten) => Evaluator.Run(fuel, env, rewritten)
  }

  /** `EvaluateExpression`: the pipeline on a fresh, empty environment. */
  function EvaluateExpression(cfg: LexConfig, order: seq<Processor.Macro>, fuel: nat, input: string): Outcome<Value> {
    EvaluateExpressionWithEnv(cfg, order, fuel, input, NewEnvironment()).0
  }

  // ---------------------------------------------------------------------
  // Programs without macro forms.

  /** The macro passes run in some order over the registered macros. */
  predicate RegisteredOnly(order: seq<Processor.Macro>) {
    forall i :: 0 <= i < |order| ==> order[i] in Processor.Registered
  }

  /** A tree with none of the macros' forms. */
  predicate Plain(e: Sexp) {
    NoKind(e, "->") && NoKind(e, "->>") && NoKind(e, Quote.Marker)
  }

  /** Every pass keeps a normal root without macro forms, the empty one
      included. */
  lemma MacrosKeepPlain(order: seq<Processor.Macro>, e: Sexp)
    requires RegisteredOnly(order) && Normal(e) && e.kind == "root" && Plain(e)
    ensures Processor.ApplyMacros(order, e) == Ok(e)
  {
    assert Thread.Identifier(Thread.First) == "->" && Thread.Identifier(Thread.Last) == "->>";
    Processor.ThreadingKeeps(Thread.First, e);
    Processor.ThreadingKeeps(Thread.Last, e);
    if IsAtomic(e) {
      Quote.PassTranslatesRoot(e);
      DeepCopyOfNormal(e);
      assert Processor.Step(Processor.Quoting, e) == Ok(e);
    } else {
      Processor.QuotingKeeps(e);
    }
    Processor.FixedByAll(order, e);
  }

  /** A printable tree is normal: only literals carry a value. */
  lemma {:induction false} PrintableIsNormal(cfg: LexConfig, s: Sexp)
    requires Roundtrip.Printable(cfg, s)
    ensures Normal(s)
    decreases s
  {
    forall i | 0 <= i < |s.children| ensures Normal(s.children[i]) {
      PrintableIsNormal(cfg, s.children[i]);
    }
  }

  /** The pipeline applied to the rendering of printable trees without
      macro forms is the evaluator's walk over the root holding them. */
  lemma EvaluateRendering(cfg: LexConfig, order: seq<Processor.Macro>, fuel: nat, cs: seq<Sexp>, env: Evaluator.ValidEnv)
    requires {"(", ")", "eof"} <= cfg.labels && RegisteredOnly(order)
    requires forall i :: 0 <= i < |cs| ==> Roundtrip.Printable(cfg, cs[i]) && Plain(cs[i])
    ensures EvaluateExpressionWithEnv(cfg, order, fuel, ShowAllParseable(cs), env)
            == Evaluator.Run(fuel, env, NewSexpression("root", cs))
  {
    var root := NewSexpression("root", cs);
    ParsedRoot(cfg, cs);
    MacrosKeepPlain(order, root);
  }

  /** The rendering of printable trees parses back to a normal root
      without macro forms. */
  lemma ParsedRoot(cfg: LexConfig, cs: seq<Sexp>)
    requires {"(", ")", "eof"} <= cfg.labels
    requires forall i :: 0 <= i < |cs| ==> Roundtrip.Printable(cfg, cs[i]) && Plain(cs[i])
    ensures var root := NewSexpression("root", cs);
            Parser.Parse(cfg, ShowAllParseable(cs)) == Ok(root) && Normal(root) && Plain(root)
  {
    Roundtrip.ParseShowAll(cfg, cs);
    forall i | 0 <= i < |cs| ensures Normal(cs[i]) {
      PrintableIsNormal(cfg, cs[i]);
    }
  }

  /** An empty program is an error: `root` needs at least one argument. The
      environment is left as it was. */
  lemma EmptyProgramFails(cfg: LexConfig, order: seq<Processor.Macro>, fuel: nat, env: Evaluator.ValidEnv)
    requires {"(", ")", "eof"} <= cfg.labels && RegisteredOnly(order)
    ensures EvaluateExpressionWithEnv(cfg, order, fuel, "", env) == (Fail(Errors.WrongNumberOfArgs("root", 0, 1)), env)
  {
    var root := NewSexpression("root", []);
    assert ShowAllParseable([]) == "";
    EvaluateRendering(cfg, order, fuel, [], env);
    Evaluator.EmptyRootFails(fuel, env);
  }
}
