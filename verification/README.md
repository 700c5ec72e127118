# lingo core in Dafny

lingo is a small Lisp interpreter. It has five stages, and this project models each of them:

1. A lexer turns the source text into tokens.
2. A parser builds an s-expression tree under a `root` node.
3. Macro passes rewrite the tree: thread-first `->`, thread-last `->>` and the quote marker `'`.
4. A generic walker drives visitors over the tree.
5. An evaluator walks the tree and calls 18 built-in functions.

The evaluator keeps a stack of argument frames and an environment of bindings. The built-ins are `root`, `;`, `def`, `bindings`, `resolve`, `tidy`, `pair`, `dict`, `vec`, `add`, `identifier`, `string`, `keyword`, `int`, `concat`, `quote`, `eval` and `desc`.

## How the Go program is represented

The model is functional:

- Trees, tokens, results, frames and environments are immutable datatypes.
- Every operation is a pure function. State is threaded explicitly.

Modules follow the Go packages:

| module | Go source it models |
|---|---|
| `Sexpr` | `parser/sexpression.go` |
| `ExprStack` | `parser/stack.go` |
| `Lexer` | `parser/lexer.go` |
| `Parser` | `parser/parser.go` |
| `Walker` | `traversal/` |
| `ThreadMacro`, `ThreadFirstMacro`, `QuoteMacro`, `Processor` | `macro/` |
| `Types` | `types/type.go` |
| `Values` | `eval/result.go` |
| `Env` | `eval/env.go` |
| `Errors` | `eval/error.go` |
| `Registry` | `eval/function.go` and the `Symbol`/`Desc` of each built-in |
| `Builtins` | the `Validate`/`Evaluate` pair of each built-in |
| `Evaluator` | `eval/evaluator.go` and `eval/eval.go` |
| `Pipeline` | `eval/evaluate.go` |

Three modules have no single Go counterpart:

- `Text` holds the `strconv` and `strings` helpers the code relies on.
- `Roundtrip` proves that rendering and parsing are inverse.
- `Programs` evaluates whole programs: the script of eval/run_test.go, the two programs of eval/quote_test.go, and small definitions and look-ups. The programs of def_test.go, bindings_test.go, tidy_test.go and desc_test.go have no program-level lemma; the built-ins they exercise are covered one by one (`Builtins.EvalDef`, `Builtins.BindingsListsEveryName`, `Builtins.EvalTidy`, `Builtins.DescListsEveryBuiltin`).

Go-specific behaviour is mapped as follows:

- **Nil and panics.** A Go `nil` result is `Values.Nil`. Dereferencing it, a failed type assertion, an index out of range and `log.Fatalf` all become `Outcomes.Panic`.
- **Non-termination.** The one loop that never ends in Go, `readComment` (parser/lexer.go:298-307) on a comment without a newline, becomes `Outcomes.Diverges`.
- **Nested `eval`.** The depth of nested `eval` is bounded by a `fuel` parameter. Running out gives `Outcomes.OutOfFuel`. Go has no such bound: nesting without end is recursion that ends in a fatal stack overflow.
- **Global state.** The lexer's hooked labels and matchers (`LexConfig`) are an explicit value. So are the type counter, the function registry and the macro list.
- **Map order.** Go map iteration order is unspecified. The order in which macro passes run is therefore a parameter. The order of `bindings` and `desc` rows is never claimed.
- **Integers.** Values are 64-bit: `Text.Wrap64` spells out the wrap-around of `add`, and `Text.Atoi` accepts only values in the int64 range.

## Model

| member | source | states |
|---|---|---|
| Text.NatToString | eval/result.go:74 | the decimal digits of a natural number, never with a leading zero |
| Text.IntToString | eval/result.go:74 | `strconv.Itoa`: a non-empty text that starts with `-` exactly for negative numbers |
| Text.DigitsValueOfNatToString | eval/result.go:74 | reading the printed digits back gives the number again |
| Text.Atoi | eval/int.go:35-39 | `strconv.Atoi` succeeds exactly on an optional sign followed by decimal digits whose value fits in 64 bits |
| Text.AtoiValue | eval/int.go:47 | the value `int` keeps: the parsed number when parsing succeeds, 0 when the text is not a number, always in int64 range |
| Text.AtoiError | eval/int.go:35-39 | an error exactly when `Atoi` rejects the text |
| Text.AtoiOfIntToString | eval/int.go:35-39 | every int64 survives `Itoa` followed by `Atoi` |
| Text.Wrap64 | eval/add.go:37-45 | int64 wrap-around: the result is in range, equals the input when the input is in range, and is congruent to it modulo 2^64 |
| Text.Spaces | parser/sexpression.go:56 | the indentation of the debug rendering: exactly n spaces |
| Types.NewTypeWithProperties | types/type.go:30-33 | the new type's id is the number of ids issued so far, differs from every earlier id, and is recorded as issued |
| Types.NewType | types/type.go:25-28 | the same with an empty property mask: the next id, distinct from every earlier one, and recorded as issued |
| Types.IssueBuiltins | types/type.go:39-50 | issuing the built-in types leaves a counter whose ids are their positions |
| Types.BuiltinTypesIssuedInOrder | types/type.go:39-50 | the declarations issue exactly the ten built-in types, nil=0 through sexp=9, with pairwise distinct ids |
| Types.PropertyBitsDistinct | types/type.go:15-21 | the five property flags are the bits 1, 2, 4, 8, 16 and do not overlap |
| Types.HasEmptyProperty | types/type.go:35-37 | every type has the empty property set |
| Types.NoBuiltinIsNumeric | types/type.go:39-50 | no built-in type carries the Numeric bit; integer is Primitive |
| Types.NilAndUnknownDiffer | types/type.go:40-41 | nil and unknown share the name "nil" but are different types |
| Sexpr.NewSexpression | parser/sexpression.go:91-97 | a node of the given kind holding the given children, with no text |
| Sexpr.NewAtomic | parser/sexpression.go:99-105 | an atomic node carrying the given kind and text |
| Sexpr.Len | parser/sexpression.go:14-20 | the child count, which is zero exactly for atomic nodes |
| Sexpr.Append | parser/sexpression.go:22-25 | the node gains the new child last; kind, text and earlier children are kept, and the node is no longer atomic |
| Sexpr.DeepCopy | parser/sexpression.go:36-45 | atoms are copied unchanged; a compound node keeps its kind and child count, loses its text, and its children are the copies of the originals |
| Sexpr.DeepCopyAll | parser/sexpression.go:41-43 | the children are copied one by one, in order |
| Sexpr.DeepCopyIsNormal | parser/sexpression.go:36-45 | a copy never has text on a compound node |
| Sexpr.DeepCopyOfNormal | parser/sexpression.go:36-45 | a tree without text on compound nodes (every parsed tree) is its own copy |
| Sexpr.DeepCopyIdempotent | parser/sexpression.go:36-45 | copying a copy changes nothing |
| Sexpr.RenderingsSurviveDeepCopy | parser/sexpression.go:36-45 | both renderings of a parsed tree are unchanged by a deep copy |
| Sexpr.DeepCopyDropsCompoundValue | parser/sexpression.go:40 | for a tree with text on a compound node, the debug rendering of its copy differs |
| Sexpr.ShowAgrees | parser/sexpression.go:47-89 | the as-written re-parseable rendering equals the corrected one on trees without empty forms |
| Sexpr.ShowAllAgrees | parser/sexpression.go:27-30 | the same for a sequence of trees |
| ExprStack.NewExpressionStack | parser/stack.go:7-9 | a new stack is empty |
| ExprStack.Push | parser/stack.go:15-17 | the length grows by one and the top is the pushed node |
| ExprStack.Pop | parser/stack.go:19-27 | on an empty stack: the error "pop on an empty stack" and no change; otherwise the top node, and pushing it back restores the stack |
| ExprStack.Peek | parser/stack.go:33-39 | the top node without removal; the error "peek on an empty stack" when empty |
| ExprStack.PopAfterPush | parser/stack.go:15-27 | LIFO: a pop after a push returns the pushed node and the earlier stack |
| ExprStack.LenCountsOperations | parser/stack.go:29-43 | after any sequence of operations the length is the number of pushes minus the number of successful pops |
| Lexer.HookToken | parser/lexer.go:61-71 | fails, with the "token '…' already linked" panic, exactly when the label is already hooked; otherwise the token's value is its label |
| Lexer.HookMatcher | parser/lexer.go:73-79 | fails exactly when a matcher with that id is registered; otherwise the matcher is prepended |
| Lexer.InitMatcherOrder | parser/lexer.go:134-139 | after `init` the matchers are tried as hooked label, keyword, number, identifier |
| Lexer.NewToken | parser/lexer.go:145-151 | a token exactly for a hooked label; otherwise "could not find token for '…'" |
| Lexer.ClassifyFirstVerdict | parser/lexer.go:262-271 | a word's kind is the verdict of the first matcher that does not answer unknown, or unknown when every matcher does |
| Lexer.InitClassification | parser/lexer.go:81-132 | with the init order: a hooked label, else `keyword` for a leading `:`, else `int` when `Atoi` accepts, else `float`, else `identifier` |
| Lexer.NewLexer | parser/lexer.go:221-225 | a lexer at position 0 of the input |
| Lexer.SkipWS | parser/lexer.go:338-342 | stops at the first non-whitespace position, never moving back and never past the end |
| Lexer.WordEnd | parser/lexer.go:309-315 | stops at the first non-word character |
| Lexer.StringEnd | parser/lexer.go:287-296 | stops at the next double quote or at the end of input |
| Lexer.LineEnd | parser/lexer.go:298-307 | the position of a newline at or after the start, if any |
| Lexer.LineEndIsFirst | parser/lexer.go:298-307 | that newline is the first one; absent exactly when there is none |
| Lexer.NextToken | parser/lexer.go:227-279 | keeps the input, never moves back, yields eof at the end of input, and advances past every known token |
| Lexer.ReadAt | parser/lexer.go:233-278 | the same guarantees for the dispatch that follows whitespace skipping |
| Lexer.WhitespaceIsSkipped | parser/lexer.go:230 | leading whitespace does not change the next token |
| Lexer.EndOfInputIsEof | parser/lexer.go:257-261 | at or past the end of input the token is `eof` with empty text |
| Lexer.WordToken | parser/lexer.go:262-270 | a word becomes one token of its classified kind carrying the whole word |
| Lexer.KeywordToken | parser/lexer.go:83-88 | a word with a leading `:` is a keyword token whose value keeps the `:` |
| Lexer.StringToken | parser/lexer.go:255-256 | a double-quoted string yields its raw inner text, with no escape handling, and the lexer moves past the closing quote |
| Lexer.ReadString | parser/lexer.go:287-296 | a string token's text is everything up to the next quote or the end of input |
| Lexer.PunctuationToken | parser/lexer.go:241-254 | each hooked punctuation character is a token of its own |
| Lexer.StrayCharacter | parser/lexer.go:272-274 | any other character yields an unknown-label token and the position does not advance |
| Lexer.UnterminatedComment | parser/lexer.go:298-307 | a comment without a following newline never ends the read |
| Lexer.CommentToken | parser/lexer.go:239-240 | a comment token carries the text up to the newline |
| Lexer.TokenizeStep | parser/lexer_test.go:32-34 | reading all tokens is one token followed by the tokens of the rest |
| Lexer.LexerSimple | parser/lexer_test.go:8-45 | `(desc)` lexes as `(`, identifier `desc`, `)` |
| Parser.Root | parser/parser.go:14-17 | the parse starts from an empty `root` node |
| Parser.AppendToTop | parser/parser.go:101-105 | an atom is appended to the innermost open node only |
| Parser.Close | parser/parser.go:41-53 | closing attaches the innermost open node to its parent |
| Parser.CloseAfterPush | parser/parser.go:28-44 | opening then closing a node appends it to the enclosing node |
| Parser.ParseStep | parser/parser.go:23-106 | each loop step that continues strictly advances the lexer |
| Parser.StepOn | parser/parser.go:97-105 | unknown tokens and eof end the loop |
| Parser.OpenNode | parser/parser.go:28-40 | the token after `(` names the new node, and an unknown label there ends the parse |
| Parser.NextPair | parser/parser.go:61-76 | `,` continues only inside a pair of a dict |
| Parser.CloseDict | parser/parser.go:77-94 | `}` continues only when it closes a pair and its dict |
| Parser.Act | parser/parser.go:41-105 | any token that continues the parse is a known one |
| Parser.StepKeepsOpenNodes | parser/parser.go:23-106 | every step keeps the open nodes free of text |
| Parser.ParseLoopKeepsOpenNodes | parser/parser.go:23-106 | the invariant holds through the whole loop |
| Parser.ParseIsRooted | parser/parser.go:13-118 | every successful parse is a `root` node without text on compound nodes |
| Parser.AtomStep | parser/parser.go:101-105 | a known non-structural token becomes an atomic child (kind = label, value = text) |
| Parser.OpenStep | parser/parser.go:28-33 | `(` makes the next token the head |
| Parser.HeadStep | parser/parser.go:34-40 | the head token's label becomes the new node's kind and its text is discarded |
| Parser.CloseStep | parser/parser.go:41-44 | `)` closes the innermost node |
| Parser.EofStep | parser/parser.go:23-27 | eof ends the loop with the stack as it is |
| Parser.SpaceStep | parser/lexer.go:338-342 | whitespace does not change the parse |
| Roundtrip.ParseShowAll | parser/parser.go:13-118 | parsing the corrected rendering of any printable trees gives back the root holding exactly those trees |
| Roundtrip.ParseExpressionStrings | parser/sexpression.go:27-30 | parsing the as-written rendering `ExpressionString` gives the trees back when none of them holds an empty form |
| Roundtrip.EmptyFormLost | parser/sexpression.go:50-68 | the as-written rendering of the empty form `(bindings)` is a lone space, which parses to an empty root |
| Roundtrip.ShowAllLexes | parser/lexer.go:227-279 | the rendering of printable trees lexes to the token sequence read off the trees, then eof |
| Roundtrip.TokensParseRoot | parser/parser.go:23-118 | those tokens parse to the root holding the trees |
| Walker.WalkLeaf | traversal/walker.go:28-48 | an atom is entered and left with no further callbacks |
| Walker.WalkEntered | traversal/walker.go:33-45 | after an accepting `Enter`, the children are walked and then `Leave` runs unless a child failed |
| Walker.WalkTwoChildren | traversal/walker.go:35-40 | children are walked left to right, and a failure stops the walk |
| Walker.WalkOnlyChild | traversal/walker.go:33-45 | the walk of a node with one child |
| Walker.InstrumentTransparent | traversal/walker.go:18-48 | logging the callbacks changes neither the walk's state nor its outcome |
| Walker.BeforeFirstAfterOnSuccess | traversal/walker.go:18-26 | `Before` comes first; `After` comes last exactly when the walk succeeded |
| Walker.AfterNeverInNode | traversal/walker.go:28-48 | no `After` happens inside the recursive walk |
| Walker.LeaveAfterDeclinedEnter | traversal/walker.go:42 | when `Enter` declines, `Leave` still runs and the children are skipped |
| Walker.EnterErrorSkipsLeave | traversal/walker.go:29-32 | an `Enter` error aborts before that node's `Leave` |
| Walker.ChildErrorStops | traversal/walker.go:36-39 | a failing child stops the walk of its siblings |
| Walker.PermissiveWalkTrace | traversal/walker.go:18-48 | with accepting callbacks, the callback log is `Before`, the node trace, then `After` |
| Walker.TraceOrders | traversal/walker.go:28-48 | entries in the trace follow pre-order and exits follow post-order |
| Walker.PermissiveOrders | traversal/walker.go:18-48 | a full walk enters in pre-order and leaves in post-order |
| Walker.VisitorTestOrders | traversal/visitor_test.go:11-52 | the golden enter and leave orders of the visitor test |
| Walker.SimulatesWalk | traversal/walker.go:18-48 | two visitors whose callbacks correspond under a map walk in lockstep |
| ThreadMacro.NewThreadMacro | macro/thread.go:16-22 | a new macro has an empty output root and an empty stack |
| ThreadMacro.Insert | macro/thread.go:70-76 | First mode puts a copy of the previous result first among the children; Last mode puts it last |
| ThreadMacro.Result | macro/thread.go:40-45 | fails with "translation failed" exactly when no threading form was rebuilt |
| ThreadMacro.FoldThreads | macro/thread.go:54-79 | the fold fails with the atomic-target error exactly when a later child is atomic; otherwise the stack holds only the threaded form |
| ThreadMacro.FoldForm | macro/thread.go:54-81 | entering a threading form seeds the stack with a copy of its first child and threads it through the rest |
| ThreadMacro.WalkNodeCollects | macro/thread.go:54-96 | the macro's walk collects exactly the rewritten threading forms, in leave order |
| ThreadMacro.PassRebuildsRoot | macro/thread.go:40-96 | a pass outputs a root holding the collected forms, and fails when there are none |
| ThreadMacro.NoFormsCollectNothing | macro/thread.go:54-81 | a tree without threading forms collects nothing |
| ThreadFirstMacro.NewThreadFirstMacro | macro/threadfirst.go:9-14 | a new macro has an empty output root and an empty stack |
| ThreadFirstMacro.Result | macro/threadfirst.go:25-30 | fails exactly when no `->` form was rebuilt |
| ThreadFirstMacro.FoldIsFirstFold | macro/threadfirst.go:39-61 | its fold is the First-mode fold of the threading macro |
| ThreadFirstMacro.SimulatesThreadFirst | macro/threadfirst.go:39-76 | its callbacks correspond to the First-mode threading macro's |
| ThreadFirstMacro.SameAsThreadFirst | macro/threadfirst.go:9-76 | its walk behaves exactly as the First-mode threading macro |
| QuoteMacro.Resolve | macro/quote.go:36-61 | the rebuilt children, one per slot |
| QuoteMacro.TranslateChildren | macro/quote.go:44-59 | rebuilding the children keeps the slot bookkeeping consistent |
| QuoteMacro.TranslateByGroups | macro/quote.go:36-61 | a rebuilt node holds the grouping of its children: markers are dropped, each marker starts a new `quote` wrapper, and that wrapper receives every later sibling up to the next marker, appearing once per sibling it holds |
| QuoteMacro.TranslateChildrenGroups | macro/quote.go:44-59 | the children loop computes that grouping |
| QuoteMacro.NoMarkersCopies | macro/quote.go:36-61 | without markers, translation is the deep copy |
| QuoteMacro.TranslateIgnoresCopy | macro/quote.go:36-61 | translating a copy gives the same tree |
| QuoteMacro.SharedWrapper | macro/quote.go:42-58 | since `quoted` is never reset to nil, the siblings after a marker share its one wrapper, and a trailing marker vanishes |
| QuoteMacro.Result | macro/quote.go:23-28 | fails exactly when the translated root has no children |
| QuoteMacro.PassTranslatesRoot | macro/quote.go:63-73 | a pass translates the root and nothing else |
| QuoteMacro.QuoteTestTree | macro/quote_test.go:11-46 | the golden translation of the quote test |
| Processor.HookMacro | macro/processor.go:34-41 | succeeds exactly when the identifier is neither a hooked label nor a registered macro; it then hooks it |
| Processor.InitRegistersMacros | macro/processor.go:28-32 | `init` registers `->>`, `->` and `'` |
| Processor.Step | macro/processor.go:45-56 | a walk error is returned; a failed `Result` falls back to the saved copy |
| Processor.FixedByAll | macro/processor.go:43-58 | a tree every pass keeps is returned unchanged, in any order |
| Processor.OnePassRewrites | macro/processor.go:43-58 | when one pass rewrites and all others keep, the rewrite is the result |
| Processor.WalkErrorIsFatal | macro/processor.go:47-51 | a walk error ends `ApplyMacros` with that error |
| Processor.ThreadingKeeps | macro/processor.go:45-56 | a threading pass keeps a parsed tree without its forms |
| Processor.QuotingKeeps | macro/processor.go:45-56 | a quote pass keeps a parsed tree without markers |
| Processor.MathFormThreads | macro/threadfirst_test.go:33-55 | `(-> (+ 13 4) (- 5) (* 3))` becomes `(* (- (+ 13 4) 5) 3)` |
| Processor.ThreadFirstMathAnyOrder | macro/threadfirst_test.go:11-57 | `ApplyMacros` gives that rewrite in every order of the passes |
| Processor.AtomicTargetIsFatal | macro/thread.go:67-69 | an atomic threading target makes `ApplyMacros` fail with the atomic-target error in every order |
| Values.TypeOf | eval/result.go:17-24 | every result has a type; nil has none (the call panics) |
| Values.TypeDeterminesVariant | eval/result.go:27-321 | two results have the same type exactly when they are the same variant, and type ids decide it |
| Values.NoResultIsUnknown | eval/result.go:269-281 | no result has the unknown type, and only Empty has the nil type |
| Values.Lookup | eval/result.go:111-114 | a column exists exactly for a key with an entry |
| Values.Put | eval/result.go:161-168 | map assignment: the key gets the new column and every other key keeps its own |
| Values.FreshColumns | eval/result.go:203-216 | exactly the given headers, each with an empty column |
| Values.NewDictResult | eval/result.go:203-216 | a dict with the headers in the given order, each with an empty column |
| Values.AddPair | eval/result.go:161-168 | fails with "key '…' not present" exactly when the column is missing; otherwise the headers are kept |
| Values.DedupSpec | eval/result.go:170-179 | header deduplication keeps each header once and loses none |
| Values.MergeSpec | eval/result.go:169-193 | merged headers are r's then other's with duplicates removed, and each column is other's when other has it, else r's |
| Values.AppendResult | eval/result.go:252-255 | the item is added at the end and the others are kept |
| Values.PrependResult | eval/result.go:256-259 | the item is added at index 0 and the others follow |
| Values.VecString | eval/result.go:237-248 | a vector renders as its items' renderings joined with "," |
| Values.DeepCopy | eval/result.go:116-127 | copying fails, with a nil dereference, exactly when a nil result is nested inside |
| Values.DeepCopyAll | eval/result.go:229-235 | the items are copied one by one, in order |
| Values.CopyColumns | eval/result.go:116-127 | the copy has the columns of the base plus the copied ones |
| Values.CopyColumnsSpec | eval/result.go:116-127 | each copied column holds the copies of its items |
| Values.DeepCopyKeepsTypeAndString | eval/result.go:27-321 | a copy keeps its type and rendering, and a dict copy keeps its header order and column lengths |
| Values.DeepCopyKeepsString | eval/result.go:27-321 | a copy renders as the original |
| Values.SetValue | eval/result.go:34-41 | succeeds exactly for the variant's payload kind, keeps the type, and otherwise gives the variant's own error |
| Values.SetValueRoundTrip | eval/result.go:34-41 | setting a payload stores it, and setting the current payload changes nothing |
| Env.Get | eval/env.go:86-88 | a binding exists exactly for a bound name |
| Env.NewEnvironment | eval/env.go:11-15 | a new environment has no bindings |
| Env.Bind | eval/env.go:86-88 | sets or overwrites exactly one binding |
| Env.Tidy | eval/env.go:17-22 | no bindings remain |
| Env.GC | eval/env.go:24-32 | removes exactly the names that start with "_v" and keeps all others |
| Env.DeepCopy | eval/env.go:34-40 | the same names, each bound to a copy; fails exactly when a value holds nil |
| Env.Push | eval/env.go:94-96 | the item goes on top and the rest are kept |
| Env.Pop | eval/env.go:109-116 | removes and returns the top; nil and no change on an empty frame |
| Env.Peek | eval/env.go:130-135 | the item `Pop` would return, without removal |
| Env.GetArgument | eval/env.go:98-103 | item i for i below the length, nil for i above it, and an index panic for i equal to it |
| Env.Append | eval/env.go:105-107 | the other frame's items after this frame's, in order |
| Env.Reset | eval/env.go:126-128 | the frame is empty |
| Env.PushPop | eval/env.go:94-116 | LIFO: a pop after a push returns the pushed item and the earlier frame |
| Env.PopAppended | eval/env.go:105-116 | a pop after appending a non-empty frame takes that frame's last item |
| Env.PushStackFrame | eval/env.go:56-60 | pushes one empty frame |
| Env.PopStackFrame | eval/env.go:66-73 | nil on an empty stack; otherwise removes and returns the top frame |
| Env.PeekStackFrame | eval/env.go:75-80 | the frame `PopStackFrame` would return |
| Env.PushPopStackFrame | eval/env.go:56-73 | popping after a push returns the new empty frame and the earlier stack |
| Errors.FirstClose | eval/error.go:49-51 | the message is "(" + label + ") " + text, and its first `)` follows the label |
| Errors.ErrorMessageInjective | eval/error.go:49-51 | for labels without `)`, label and text are recovered from the message |
| Errors.ArgumentCountMessages | eval/error.go:10-29 | TooManyArgs produces the same "at least" message as TooFewArgs, and WrongNumberOfArgs a different one |
| Errors.WrongTypeOfArg | eval/error.go:31-34 | a nil parameter makes the error path itself panic |
| Errors.InvalidVarName | eval/error.go:44-47 | a nil parameter panics; otherwise an error that differs from the wrong-type one |
| Errors.CheckVariableName | eval/error.go:36-42 | fails exactly when the argument's rendering starts with "_" |
| Errors.HiddenSymbolMessage | eval/error.go:36-47 | the error for a hidden symbol names its type, not the variable |
| Registry.Find | eval/function.go:86-91 | finds a built-in exactly when one has the label as its symbol |
| Registry.HookFunction | eval/function.go:78-84 | fails with "function … already used" exactly when the symbol is taken; otherwise the function can be found |
| Registry.FindAppended | eval/function.go:78-84 | hooking changes the lookup of its own symbol only |
| Registry.SymbolNotKeyword | eval/function.go:57-76 | no symbol is empty or starts with `:` |
| Registry.SymbolInjective | eval/function.go:57-76 | different built-ins have different symbols |
| Registry.IndexOf | eval/function.go:57-76 | every built-in is registered |
| Registry.InitialRegistry | eval/function.go:38-76 | the initial registry maps each of the 18 symbols to its built-in, and hooking any of them again fails |
| Registry.BuiltinOfSymbol | eval/function.go:86-91 | the lookup inverts `Symbol` |
| Registry.BuiltinOfIsFind | eval/function.go:86-91 | the evaluator's lookup is `Find` on the initial registry |
| Registry.HookTokens | parser/lexer.go:61-71 | hooking a list of labels adds exactly those labels |
| Registry.LoadHooksLabels | eval/function.go:9-21 | loading the package hooks the punctuation labels and every built-in's symbol without a clash |
| Builtins.FirstMisfit | eval/concat.go:28-32 | the first item whose type does not fit, or none when all fit |
| Builtins.CheckItems | eval/concat.go:28-32 | an error exactly when an item does not fit, naming the first such item (1-based) |
| Builtins.CheckOne | eval/def.go:28-31 | an error exactly when the item does not fit |
| Builtins.ValidateAddAsWritten | eval/add.go:25-35 | `add` rejects an empty frame and any item whose type lacks the Numeric bit |
| Builtins.AddAlwaysRejected | eval/add.go:29-33 | so `add` as written rejects every frame |
| Builtins.ValidateAdd | eval/add.go:25-35 | corrected: accepts exactly non-empty frames of integers |
| Builtins.EvalAdd | eval/add.go:37-45 | the int64-wrapped sum of the frame, which ends empty; a non-integer item panics |
| Builtins.AddDownSpec | eval/add.go:39-42 | the popping loop computes the wrapped sum |
| Builtins.ValidateConcat | eval/concat.go:24-34 | accepts exactly non-empty frames of strings |
| Builtins.EvalConcat | eval/concat.go:36-44 | the environment is not touched |
| Builtins.ConcatKeepsOrder | eval/concat.go:36-44 | popping last-first still joins the texts in frame order, and the frame ends empty |
| Builtins.ConcatResult | eval/concat.go:24-44 | a validated `concat` gives the texts joined in order |
| Builtins.ValidateDef | eval/def.go:24-39 | accepts exactly two or more items whose first is a symbol; the hidden-name error is discarded |
| Builtins.EvalDef | eval/def.go:41-63 | binds the name below the top to the top item, pops both, and returns the one-row Variable/Type/Value table |
| Builtins.DefBindsTopTwo | eval/def.go:41-45 | with three items, the top two are used and the first stays |
| Builtins.DefExtraArgumentPanics | eval/def.go:24-45 | a third item passes validation but the item below the top is not a symbol, so evaluation panics |
| Builtins.ValidateResolve | eval/resolve.go:24-39 | accepts exactly one bound charseq; "variable '…' not defined" otherwise |
| Builtins.EvalResolve | eval/resolve.go:41-47 | returns the bound value itself, and fails exactly when the name is unbound |
| Builtins.BindThenResolve | eval/resolve.go:24-47 | a bound name resolves to its value |
| Builtins.ValidateQuote | eval/quote.go:24-35 | accepts exactly one sexp item |
| Builtins.EvalQuote | eval/quote.go:37-40 | pops and returns that same value |
| Builtins.ValidateEval | eval/eval.go:25-35 | accepts exactly one sexp item |
| Builtins.ValidateDict | eval/dict.go:25-37 | accepts exactly non-empty frames of dicts |
| Builtins.EvalDict | eval/dict.go:39-51 | merges the frame into one dict and empties it; a non-dict item panics; an empty frame gives an error |
| Builtins.MergeDown | eval/dict.go:44-48 | the merge loop always yields a dict |
| Builtins.MergeDownColumns | eval/dict.go:44-48 | merged headers are those of all pairs, once each, and on a shared header the lowest (earliest) pair's column wins |
| Builtins.MergeDownFails | eval/dict.go:44-48 | the merge fails exactly when an item is not a dict |
| Builtins.MergeDownSpec | eval/dict.go:39-51 | the same, starting from the top dict |
| Builtins.ValidatePair | eval/pair.go:24-35 | accepts exactly two items whose first is a keyword |
| Builtins.EvalPair | eval/pair.go:37-46 | a one-header dict mapping the keyword to a one-item column; both items are popped |
| Builtins.PairByAddPair | eval/pair.go:41-44 | the dict is built by `AddPair` on a fresh dict |
| Builtins.ValidateVec | eval/vec.go:25-38 | accepts exactly non-empty frames of keywords, strings and integers |
| Builtins.PrependDownKeepsOrder | eval/vec.go:43-48 | prepending while popping keeps the frame order |
| Builtins.EvalVec | eval/vec.go:40-50 | the vector of the frame's items in order; the frame ends empty |
| Builtins.ValidateInt | eval/int.go:25-42 | accepts exactly one charseq that `Atoi` accepts, with Atoi's error otherwise |
| Builtins.EvalInt | eval/int.go:44-50 | the parsed integer |
| Builtins.IntLiteral | eval/int.go:25-50 | the printed form of any int64 evaluates back to it |
| Builtins.ValidateString | eval/string.go:24-37 | accepts exactly no item or one charseq |
| Builtins.EvalString | eval/string.go:39-47 | one charseq becomes a string of the same text; any other count gives "" and pops nothing |
| Builtins.ValidateOneCharSeq | eval/symbol.go:24-35 | accepts exactly one charseq; the same check is used by `keyword` |
| Builtins.EvalIdentifier | eval/symbol.go:37-41 | pops the item and returns a symbol with its text |
| Builtins.EvalKeyword | eval/keyword.go:37-41 | pops the item and returns a keyword with its text, `:` included |
| Builtins.FurnishedRendersText | eval/string.go:39-47 | the string, symbol and keyword made from a text render as that text |
| Builtins.ValidateRoot | eval/root.go:23-28 | accepts exactly a non-empty frame |
| Builtins.EvalTop | eval/root.go:30-32 | pops and returns only the top item (nil on an empty frame, as `;` allows) |
| Builtins.BindingRows | eval/bindings.go:33-36 | one row per binding with its name and type name; a nil value panics |
| Builtins.EvalBindings | eval/bindings.go:27-39 | neither the frame nor the environment changes |
| Builtins.BindingsListsEveryName | eval/bindings.go:27-39 | the Variable column lists exactly the bound names, each with its type name |
| Builtins.RowsTable | eval/bindings.go:27-39 | the rows form that table |
| Builtins.EvalTidy | eval/tidy.go:27-30 | clears every binding and returns Empty |
| Builtins.ValidateDesc | eval/desc.go:25-35 | accepts exactly no item or one keyword |
| Builtins.DescAll | eval/desc.go:42-47 | one Command/Description row per registered function |
| Builtins.DescribeOne | eval/desc.go:49-57 | a row exactly for a registered symbol; "could not find functino '…'" otherwise |
| Builtins.EvalDescAsWritten | eval/desc.go:37-61 | the environment is not touched |
| Builtins.DescAsWrittenNeverFinds | eval/desc.go:49-54 | as written, a keyword's text keeps its `:`, so no function is ever found |
| Builtins.DescKey | eval/desc.go:49-54 | corrected: the lookup key is the keyword without its `:` |
| Builtins.EvalDesc | eval/desc.go:37-61 | no item gives the full table; one keyword gives that function's row |
| Builtins.DescFindsEveryBuiltin | eval/desc.go:49-57 | with the correction, `:` + symbol describes each built-in |
| Builtins.DescribesBuiltin | eval/desc.go:49-57 | each symbol has its row |
| Builtins.DescListsEveryBuiltin | eval/desc.go:42-47 | the full table has a row for each of the 18 built-ins and nothing else |
| Builtins.Validate | eval/function.go:93-98 | a validated frame is one its `Evaluate` can handle (with `add` as corrected) |
| Builtins.Evaluate | eval/function.go:100-105 | only `def` and `tidy` change the environment (with `desc` as corrected) |
| Builtins.ValidatedEvaluationSucceeds | eval/function.go:93-105 | after validation only a few evaluations can fail: `def` with a non-symbol name or nil value, `bindings` over a nil binding, `desc` with a keyword |
| Evaluator.NewEvaluator | eval/evaluator.go:7-16 | one empty frame and the binding flag off |
| Evaluator.Result | eval/evaluator.go:25-31 | Empty when no frame remains; otherwise the top item of the top frame, nil if it is empty |
| Evaluator.Prepare | eval/evaluator.go:72-86 | an atom with text first pushes that text as a charseq, and leaving `def` clears the binding flag |
| Evaluator.Dispatch | eval/evaluator.go:58-70 | an unregistered label gives "Function '…' not avaiable" |
| Evaluator.Checked | eval/evaluator.go:58-70 | `Validate` runs before `Evaluate` |
| Evaluator.Invoke | eval/function.go:100-105 | evaluation keeps the environment well formed |
| Evaluator.Close | eval/evaluator.go:88-99 | an error aborts with no push; otherwise the result is appended to the frame below |
| Evaluator.EvalEval | eval/eval.go:37-53 | `eval` consumes its frame |
| Evaluator.FunctionKinds | eval/function.go:86-91 | a kind is a function exactly when it is a registered symbol |
| Evaluator.LeaveOtherKind | eval/evaluator.go:88-91 | leaving a node of an unregistered kind fails |
| Evaluator.CloseFunction | eval/evaluator.go:95-99 | closing pops the frame and appends its result to the frame below |
| Evaluator.LeaveFunction | eval/evaluator.go:72-101 | a successful leave restores the depth and adds the result to the frame below |
| Evaluator.EnterOpens | eval/evaluator.go:37-56 | a built-in's node opens a frame and only `quote` skips its children |
| Evaluator.EvalVisitorDisciplined | eval/evaluator.go:37-101 | the evaluator's callbacks keep that frame discipline |
| Evaluator.WalkNodeExtends | eval/evaluator.go:37-101 | a node that evaluates adds at least one item to the current frame |
| Evaluator.WalkChildrenExtend | eval/evaluator.go:37-101 | so do its children |
| Evaluator.RunLeavesOneFrame | eval/evaluate.go:26-33 | a successful walk leaves one frame whose last item is the result |
| Evaluator.EnterState | eval/evaluator.go:37-56 | `def` sets the binding flag; `quote` pushes a frame holding a copy of itself and is not descended into |
| Evaluator.EnterOpensFrame | eval/evaluator.go:42-45 | entering a built-in's node pushes an empty frame |
| Evaluator.WalkBuiltinLeaf | eval/evaluator.go:37-101 | an atomic built-in node is evaluated in a frame of its own |
| Evaluator.LeaveState | eval/evaluator.go:84-86 | leaving `def` clears the binding flag |
| Evaluator.DispatchTo | eval/function.go:93-105 | dispatch validates, then evaluates the matching built-in |
| Evaluator.LeaveRejected | eval/evaluator.go:88-91 | a validation error aborts the leave with nothing pushed |
| Evaluator.LeaveDispatched | eval/evaluator.go:72-101 | a leave is dispatch followed by close |
| Evaluator.LeaveEvaluates | eval/evaluator.go:72-101 | a leave appends the evaluated result to the frame below |
| Evaluator.LeaveIdentifierResolves | eval/evaluator.go:79-82 | outside `def`, an identifier is resolved and fails exactly when unbound |
| Evaluator.LeaveIdentifierInDef | eval/evaluator.go:79-82 | inside `def`, an identifier becomes a symbol |
| Evaluator.LeaveString | eval/evaluator.go:74-77 | a string literal becomes a string value |
| Evaluator.LeaveKeyword | eval/evaluator.go:74-77 | a keyword literal becomes a keyword value |
| Evaluator.EvalIsRun | eval/eval.go:41-52 | `eval` unwraps a quote and walks it with a fresh evaluator over the same environment |
| Evaluator.EvalEmptyQuote | eval/eval.go:41-44 | `eval` of an empty quote panics on the missing first child |
| Evaluator.LeaveEval | eval/eval.go:37-53 | leaving `eval` passes on the nested walk's result |
| Evaluator.SelfEvaluationDiverges | eval/eval.go:37-53 | `(eval x)` with x = `(quote (eval x))` recurses without bound: every nesting bound runs out, and the bindings are unchanged |
| Evaluator.EmptyRootFails | eval/root.go:23-28 | an empty program is a `root` argument-count error |
| Programs.RunConcatAB | eval/evaluate.go:13-33 | the program `(concat "a" "b")` evaluates to "ab" and binds nothing |
| Programs.RunDefXA | eval/def_test.go:9-24 | a simplified form of def_test's program, `(def x "a")` with a string literal instead of `(concat "a" "b")`: it binds x and returns the one-row table whose Variable column is ["x"] |
| Programs.RunBoundX | eval/resolve.go:41-47 | a bound identifier evaluates to its value |
| Programs.RunUnboundX | eval/resolve.go:34-36 | an unbound identifier is an error |
| Programs.RunRefX | eval/resolve.go:24-47 | an identifier evaluates exactly when it is bound |
| Programs.DefThenResolve | eval/run.go:17-36 | a name defined by one line of the console loop resolves in the next, as both share one environment |
| Programs.WalkString | eval/evaluator.go:74-77 | walking a string literal pushes its text |
| Programs.WalkIdentifier | eval/evaluator.go:79-82 | walking an identifier pushes its value |
| Programs.WalkIdentifierInDef | eval/evaluator.go:79-82 | walking an identifier in `def` pushes a symbol |
| Programs.WalkConcatAB | eval/concat.go:36-44 | walking `(concat "a" "b")` pushes "ab" |
| Programs.WalkDef | eval/def.go:41-63 | walking `(def n "t")` binds n to the string t and pushes its one-row table |
| Programs.WalkComment | eval/comment.go:24-30 | a comment pushes its text, and `;` accepts it and yields it back |
| Programs.ArgumentsInto | eval/evaluator.go:72-101 | literal and bound arguments are pushed in order onto the open frame |
| Programs.LeaveRootOver | eval/root.go:23-32 | leaving `root` over a non-empty frame moves that whole frame, last item on top, into the frame below: root pops its top item, and the close at eval/evaluator.go:93-98 pushes it back and appends the frame below |
| Programs.RunRootOver | eval/root.go:30-32 | a program's value is the value of its last top-level expression |
| Programs.CommentStep | eval/comment.go:28-30 | a top-level comment leaves its text in the program's frame |
| Programs.DefStep | eval/def.go:41-63 | a top-level definition leaves its table and binds its name |
| Programs.WalkConcatXYC | eval/concat.go:36-44 | with x = "a" and y = "b", walking `(concat x y "c")` pushes "abc" |
| Programs.RunScript | eval/run_test.go:26-36 | the script of comments, two definitions and `(concat x y "c")` evaluates to "abc" and leaves x and y bound |
| Programs.WalkQuote | eval/evaluator.go:46-52 | a `quote` node pushes the expression it captures, unwalked |
| Programs.RunQuoteTest | eval/quote_test.go:24-25 | `(quote (concat (concat "a" "b") "c"))` evaluates to the expression it quotes |
| Programs.QuoteTestRendering | eval/quote_test.go:27-37 | that value renders as the indented tree the test expects |
| Programs.LeaveEvalPushes | eval/eval.go:37-53 | leaving `eval` pushes the value of the walked expression |
| Programs.RunEvalQuoteConcatAB | eval/quote_test.go:38-40 | `(eval (quote (concat "a" "b")))` evaluates to "ab" when `eval` may nest once more |
| Builtins.AddDispatchIsCorrected | eval/add.go:29-33 | the dispatcher accepts `(add 1 2)`, which the check as written rejects |
| Builtins.DescDispatchIsCorrected | eval/desc.go:49-54 | the dispatcher describes every built-in for `(desc :name)`, which the lookup as written never finds |
| QuoteMacro.MarkerStartsWrapper | macro/quote.go:46-48 | a second marker starts a new wrapper: `(k ' a ' b)` becomes `(k (quote a) (quote b))` |
| Pipeline.EvaluateExpressionWithEnv | eval/evaluate.go:13-34 | the first error of parsing or the macros is returned with the environment unchanged |
| Pipeline.MacrosKeepPlain | macro/processor.go:43-58 | a program without macro forms passes the macros unchanged |
| Pipeline.ParsedRoot | eval/evaluate.go:14-18 | the rendering of printable trees parses back to their root |
| Pipeline.EvaluateRendering | eval/evaluate.go:13-34 | evaluating such a rendering is the evaluator's walk of the trees |
| Pipeline.EmptyProgramFails | eval/evaluate.go:13-34 | an empty program is an error and leaves the environment as it was |

## Left out

- Builtins.Validate: the dispatcher runs the corrected `add` check (integers count as numeric). Every end-to-end result for `add` is therefore the corrected program's. `ValidateAddAsWritten` models the check as written.
- Builtins.Evaluate: the dispatcher runs the corrected `desc` lookup (without the keyword's `:`). Every end-to-end result for `desc` is therefore the corrected program's. `EvalDescAsWritten` models the lookup as written.
- Strings are sequences of characters, while the Go lexer and parser index bytes (parser/lexer.go:273, parser/lexer.go:317-350, parser/parser.go:98-99). The model agrees with Go for ASCII input only.
- Parser.Parse, Lexer.Tokenize, Lexer.Classify, Walker.Walk, QuoteMacro.Translate, ThreadMacro.Pass, Processor.ApplyMacros and Evaluator.Run/Enter/Leave: these have no contract of their own. The lemmas in the table state their properties.
- Pipeline.EvaluateExpression: no contract of its own. It is `EvaluateExpressionWithEnv` over a fresh environment.
- eval/run.go and main.go: left out. They are the console loop and file reading, which are stdin/stdout I/O over `EvaluateExpression`.
- `DictResult.String`: the table layout comes from an external library, so it is not modelled. Dict values are compared by header and columns. The rendered tables in eval/env_test.go and eval/evaluator_test.go are not modelled.
- The float test in `NumberMatcher` (`strconv.ParseFloat`): the predicate `isFloat` is a parameter of the lexer configuration. `strconv.Atoi` is modelled.
- Map iteration order: left unmodelled.
  - The registry, the environment and dict columns are ordered lists.
  - The `bindings` and `desc` rows are claimed as a set of rows, never as an order.
  - The order of the macro passes is a parameter; the properties of `ApplyMacros` hold for every order.
- Functions added by a host program (examples/example.go), and `HookFunction` calls after start-up: left out. `Registry.BuiltinOf` is the lookup of the initial registry.
- `Tidy` hooks on individual values: no-ops for every built-in value, so `Env.Tidy` just drops the bindings.
- The pointer in `NewEvaluator` to a copy of frame 0: not modelled. It is only written to when leaving a non-function node, which fails right after, so it cannot be observed.
- Evaluator.SelfEvaluationDiverges: eval/eval.go:46-49 walks each nested `eval` with a fresh evaluator and walker, so the self-referential program is unbounded recursion, which Go aborts with a fatal stack overflow. The model has no stack limit; it shows that every nesting bound `fuel` is exhausted, not the crash itself.
- Lexer.UnterminatedComment: `readComment` never returns on a comment without a newline. The model returns a `Diverges` error there.
- Parser: the Go parser attaches a node to its parent when it is opened; the model attaches it when it is closed.
  - The two agree because only the innermost open node ever receives children.
  - They differ only on the error paths, where the tree is discarded.
- The parser's `[`, `]`, `{`, `,` and `}` branches are modelled in the step functions, but no round trip is proved for vectors and dicts: the re-parseable rendering writes every node as `(kind …)`.
- The 64-bit width of Go `int`: modelled in `add` (`Text.Wrap64`) and `int` (`Text.Atoi`). Other arithmetic in the source does not overflow.
- `AddTest` and `ConcatTest`: not used as evidence. Their names do not start with `Test`, so Go never runs them.

## Findings

| source | as written | input that shows it | evidently intended | confidence | as-written member | corrected member |
|---|---|---|---|---|---|---|
| eval/desc.go:49-54 | the registry is looked up with the keyword's whole text, `:` included, but symbols never start with `:` | `(desc :concat)` gives "could not find functino ':concat'" | look up the keyword without its leading `:` | not executed | Builtins.DescAsWrittenNeverFinds | Builtins.DescFindsEveryBuiltin |
| eval/add.go:29-33 | each item must have the Numeric property, which no built-in type has (types/type.go:39-50) | `(add 1 2)`: both arguments evaluate to integers, and validation still rejects argument 1 | integers count as numeric | not executed | Builtins.AddAlwaysRejected | Builtins.ValidateAdd |
| parser/sexpression.go:50-68 | a form with no arguments, such as `(bindings)`, is atomic, so `ExpressionString` prints only its empty value | `(bindings)` renders as " ", which parses to an empty root | the form renders as `(bindings ) ` | not executed | Roundtrip.EmptyFormLost | Roundtrip.ParseShowAll |
