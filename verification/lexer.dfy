/** The lexer (parser/lexer.go). The two global registries of the Go code —
    the hooked token labels and the ordered matcher list — are an explicit
    configuration. `strconv.ParseFloat` is the configuration's `isFloat`
    predicate. The lexer position is `currentPosition`; the current character
    is the input byte there, or NUL past the end, exactly as `peekChar`
    provides it. */
module Lexer {

  import opened Outcomes
  import opened Text

  /** A token: its kind and its text. The kind "" is the unknown kind. */
  datatype Tok = Tok(kind: string, value: string)

  datatype Matcher = HookedMatcher | KeywordMatcher | NumberMatcher | IdentifierMatcher

  function MatcherId(m: Matcher): string {
    match m
    case HookedMatcher => "hooked"
    case KeywordMatcher => "keyword"
    case NumberMatcher => "number"
    case IdentifierMatcher => "identifier"
  }

  datatype LexConfig = LexConfig(labels: set<string>, matchers: seq<Matcher>, isFloat: string -> bool)

  const Unknown: string := ""

  /** `HookToken`: registers a kind; hooking a kind twice is fatal. */
  function HookToken(cfg: LexConfig, kind: string): (r: Outcome<(Tok, LexConfig)>)
    ensures r.Fail? <==> kind in cfg.labels
    ensures r.Fail? ==> r.error == Panic("token '" + kind + "' already linked")
    ensures r.Ok? ==> r.value.0 == Tok(kind, kind)
                      && r.value.1.labels == cfg.labels + {kind}
                      && r.value.1.matchers == cfg.matchers
  {
    if kind in cfg.labels then Fail(Panic("token '" + kind + "' already linked"))
    else Ok((Tok(kind, kind), cfg.(labels := cfg.labels + {kind})))
  }

  /** `HookMatcher`: puts a matcher in front of the others; registering the
      same matcher id twice is fatal. */
  function HookMatcher(cfg: LexConfig, m: Matcher): (r: Outcome<LexConfig>)
    ensures r.Fail? <==> exists i :: 0 <= i < |cfg.matchers| && MatcherId(cfg.matchers[i]) == MatcherId(m)
    ensures r.Ok? ==> r.value.matchers == [m] + cfg.matchers && r.value.labels == cfg.labels
  {
    if exists i :: 0 <= i < |cfg.matchers| && MatcherId(cfg.matchers[i]) == MatcherId(m) then
      Fail(Panic("matcher for " + MatcherId(m) + " already registered"))
    else Ok(cfg.(matchers := [m] + cfg.matchers))
  }

  /** The configuration after the lexer's `init`: matchers hooked in the
      order identifier, number, keyword, hooked, each in front. */
  function InitConfig(isFloat: string -> bool): (r: Outcome<LexConfig>)
  {
    var c0 := LexConfig({}, [], isFloat);
    var c1 :- HookMatcher(c0, IdentifierMatcher);
    var c2 :- HookMatcher(c1, NumberMatcher);
    var c3 :- HookMatcher(c2, KeywordMatcher);
    HookMatcher(c3, HookedMatcher)
  }

  /** Hooking prepends, so `init` leaves the matchers in the order: hooked
      kind, keyword, number, identifier. */
  lemma InitMatcherOrder(isFloat: string -> bool)
    ensures InitConfig(isFloat).Ok?
    ensures InitConfig(isFloat).value.matchers == [HookedMatcher, KeywordMatcher, NumberMatcher, IdentifierMatcher]
    ensures InitConfig(isFloat).value.labels == {}
  {
    var c0 := LexConfig({}, [], isFloat);
    var r1 := HookMatcher(c0, IdentifierMatcher);
    assert r1.Ok? && r1.value.matchers == [IdentifierMatcher] && r1.value.labels == {};
    var c1 := r1.value;
    assert MatcherId(c1.matchers[0]) != MatcherId(NumberMatcher);
    var r2 := HookMatcher(c1, NumberMatcher);
    assert r2.Ok? && r2.value.matchers == [NumberMatcher, IdentifierMatcher];
    var c2 := r2.value;
    assert forall i :: 0 <= i < |c2.matchers| ==> MatcherId(c2.matchers[i]) != MatcherId(KeywordMatcher);
    var r3 := HookMatcher(c2, KeywordMatcher);
    assert r3.Ok? && r3.value.matchers == [KeywordMatcher, NumberMatcher, IdentifierMatcher];
    var c3 := r3.value;
    assert forall i :: 0 <= i < |c3.matchers| ==> MatcherId(c3.matchers[i]) != MatcherId(HookedMatcher);
  }

  /** `NewToken`: a token for a hooked kind, an error for any other. */
  function NewToken(cfg: LexConfig, kind: string, value: string): (r: Outcome<Tok>)
    ensures r.Ok? <==> kind in cfg.labels
    ensures r.Ok? ==> r.value == Tok(kind, value)
    ensures r.Fail? ==> r.error == Error("could not find token for '" + kind + "'")
  {
    if kind in cfg.labels then Ok(Tok(kind, value))
    else Fail(Error("could not find token for '" + kind + "'"))
  }

  /** One matcher's verdict on a word; "" means no match. */
  function Match(cfg: LexConfig, m: Matcher, word: string): string {
    match m
    case HookedMatcher => if word in cfg.labels then word else Unknown
    case KeywordMatcher => if HasPrefix(word, ":") then "keyword" else Unknown
    case NumberMatcher =>
      if Atoi(word).Some? then "int" else if cfg.isFloat(word) then "float" else Unknown
    case IdentifierMatcher => "identifier"
  }

  /** The first matcher, in list order, with a verdict decides the kind. */
  function Classify(cfg: LexConfig, ms: seq<Matcher>, word: string): string {
    if |ms| == 0 then Unknown
    else if Match(cfg, ms[0], word) != Unknown then Match(cfg, ms[0], word)
    else Classify(cfg, ms[1..], word)
  }

  /** `Classify` gives the verdict of the first matcher that has one, and
      the unknown kind exactly when none has. */
  lemma {:induction false} ClassifyFirstVerdict(cfg: LexConfig, ms: seq<Matcher>, word: string)
    ensures var kind := Classify(cfg, ms, word);
            (kind == Unknown <==> forall i :: 0 <= i < |ms| ==> Match(cfg, ms[i], word) == Unknown)
            && (kind != Unknown ==>
                  exists i :: (0 <= i < |ms| && Match(cfg, ms[i], word) == kind
                               && forall j :: 0 <= j < i ==> Match(cfg, ms[j], word) == Unknown))
  {
    if |ms| > 0 && Match(cfg, ms[0], word) == Unknown {
      ClassifyFirstVerdict(cfg, ms[1..], word);
      assert forall i :: 1 <= i < |ms| ==> ms[i] == ms[1..][i - 1];
      var kind := Classify(cfg, ms, word);
      if kind != Unknown {
        var i :| 0 <= i < |ms[1..]| && Match(cfg, ms[1..][i], word) == kind
                 && forall j :: 0 <= j < i ==> Match(cfg, ms[1..][j], word) == Unknown;
        assert Match(cfg, ms[i + 1], word) == kind;
      }
    }
  }

  /** With the matchers of `init`, a word is a hooked kind if it is one,
      else a keyword if it starts with ':', else an int if `Atoi` accepts it,
      else a float if `ParseFloat` does, else an identifier. */
  lemma InitClassification(cfg: LexConfig, word: string)
    requires cfg.matchers == [HookedMatcher, KeywordMatcher, NumberMatcher, IdentifierMatcher]
    ensures Classify(cfg, cfg.matchers, word) ==
            if word in cfg.labels && word != Unknown then word
            else if HasPrefix(word, ":") then "keyword"
            else if Atoi(word).Some? then "int"
            else if cfg.isFloat(word) then "float"
            else "identifier"
  {
    var ms := cfg.matchers;
    assert ms[1..] == [KeywordMatcher, NumberMatcher, IdentifierMatcher];
    assert ms[1..][1..] == [NumberMatcher, IdentifierMatcher];
    assert ms[1..][1..][1..] == [IdentifierMatcher];
    assert Classify(cfg, [IdentifierMatcher], word) == "identifier";
    assert Classify(cfg, [NumberMatcher, IdentifierMatcher], word) ==
      if Atoi(word).Some? then "int" else if cfg.isFloat(word) then "float" else "identifier";
  }

  // ---------------------------------------------------------------------
  // Characters.

  /** `isLetterSequence`: the characters that make up words. */
  predicate IsWordChar(c: char) {
    IsDigit(c) || ('a' <= c <= 'z') || ('A' <= c <= 'Z')
    || c == '_' || c == ':' || c == '+' || c == '-' || c == '=' || c == '*'
    || c == '/' || c == '>' || c == '<' || c == '?' || c == '!'
  }

  predicate IsWhitespace(c: char) {
    c == ' ' || c == '\t' || c == '\n' || c == '\r'
  }

  /** The current character at a position: NUL past the end. */
  function CharAt(input: string, i: nat): char {
    if i < |input| then input[i] else '\0'
  }

  datatype LexState = LexState(input: string, pos: nat)

  /** `NewLexer`: positioned on the first character. */
  function NewLexer(input: string): (lx: LexState)
    ensures lx.input == input && lx.pos == 0
  {
    LexState(input, 0)
  }

  /** `skipWS`: the first position at or after `i` that is not whitespace. */
  function SkipWS(input: string, i: nat): (j: nat)
    ensures i <= j && !IsWhitespace(CharAt(input, j))
    ensures i >= |input| ==> j == i
    ensures i < |input| ==> j <= |input|
    decreases |input| - i
  {
    if i < |input| && IsWhitespace(input[i]) then SkipWS(input, i + 1) else i
  }

  /** `readLetterSequence`: the end of the word starting at `i`. */
  function WordEnd(input: string, i: nat): (j: nat)
    ensures i <= j && !IsWordChar(CharAt(input, j))
    ensures i <= |input| ==> j <= |input|
    decreases |input| - i
  {
    if i < |input| && IsWordChar(input[i]) then WordEnd(input, i + 1) else i
  }

  /** `readString`: the position of the closing quote, or of the NUL (a real
      one, or the end of the input) that ends an unterminated string. */
  function StringEnd(input: string, i: nat): (j: nat)
    ensures i <= j && (CharAt(input, j) == '"' || CharAt(input, j) == '\0')
    ensures i <= |input| ==> j <= |input|
    decreases |input| - i
  {
    if i < |input| && input[i] != '"' && input[i] != '\0' then StringEnd(input, i + 1) else i
  }

  /** `readComment`: the position of the next newline. Without one, the Go
      loop reads NUL forever: `None`. */
  function LineEnd(input: string, i: nat): (j: Option<nat>)
    ensures j.Some? ==> i <= j.value < |input| && input[j.value] == '\n'
    decreases |input| - i
  {
    if i >= |input| then None
    else if input[i] == '\n' then Some(i)
    else LineEnd(input, i + 1)
  }

  /** The single-character tokens whose kind is the character itself. */
  predicate IsPunctuation(c: char) {
    c == '(' || c == ')' || c == '[' || c == ']' || c == '{' || c == '}' || c == ','
  }

  /** `NextToken`: skips whitespace, then reads one token. The result carries
      the new lexer state also when it is an error. */
  function NextToken(cfg: LexConfig, lx: LexState): (r: (Outcome<Tok>, LexState))
    ensures r.1.input == lx.input && lx.pos <= r.1.pos
    ensures r.1.pos <= (if lx.pos < |lx.input| then |lx.input| else lx.pos) + 1
    ensures lx.pos >= |lx.input| && r.0.Ok? ==> r.0.value == Tok("eof", "")
    ensures r.0.Ok? && r.0.value.kind != Unknown ==> lx.pos < r.1.pos
    ensures r.0.Ok? && r.0.value.kind != Unknown && r.0.value.kind != "eof" ==> r.1.pos <= |lx.input| + 1
  {
    ReadAt(cfg, lx.input, SkipWS(lx.input, lx.pos))
  }

  /** Reads the token that starts at `p`, where there is no whitespace. */
  function ReadAt(cfg: LexConfig, input: string, p: nat): (r: (Outcome<Tok>, LexState))
    ensures r.1.input == input && p <= r.1.pos
    ensures r.1.pos <= (if p < |input| then |input| else p) + 1
    ensures p >= |input| && r.0.Ok? ==> r.0.value == Tok("eof", "")
    ensures r.0.Ok? && r.0.value.kind != Unknown ==> p < r.1.pos
    ensures r.0.Ok? && r.0.value.kind != Unknown && r.0.value.kind != "eof" ==> r.1.pos <= |input| + 1
  {
    var c := CharAt(input, p);
    if c == '\'' then
      var t := NewToken(cfg, "'", "'");
      if t.Fail? then (t, LexState(input, p)) else (t, LexState(input, p + 1))
    else if c == ';' then
      match LineEnd(input, p + 1)
      case None => (Fail(Diverges("comment without a terminating newline")), LexState(input, p))
      case Some(q) => (NewToken(cfg, ";", input[p + 1..q]), LexState(input, q + 1))
    else if IsPunctuation(c) then
      (NewToken(cfg, [c], [c]), LexState(input, p + 1))
    else if c == '"' then
      var q := StringEnd(input, p + 1);
      (NewToken(cfg, "string", input[p + 1..q]), LexState(input, q + 1))
    else if c == '\0' then
      var t := NewToken(cfg, "eof", "");
      if t.Fail? then (t, LexState(input, p)) else (t, LexState(input, p + 1))
    else if IsWordChar(c) then
      var q := WordEnd(input, p);
      var word := input[p..q];
      (NewToken(cfg, Classify(cfg, cfg.matchers, word), word), LexState(input, q))
    else
      (NewToken(cfg, Unknown, [c]), LexState(input, p))
  }

  // ---------------------------------------------------------------------
  // Properties of single tokens.

  /** Whitespace before a token changes nothing but where it starts. */
  lemma WhitespaceIsSkipped(cfg: LexConfig, lx: LexState)
    requires lx.pos < |lx.input| && IsWhitespace(lx.input[lx.pos])
    ensures NextToken(cfg, lx) == NextToken(cfg, LexState(lx.input, lx.pos + 1))
  {
  }

  /** At the end of the input (or at a NUL byte) the token is eof, and it
      stays eof on every later call. */
  lemma EndOfInputIsEof(cfg: LexConfig, lx: LexState)
    requires "eof" in cfg.labels && lx.pos >= |lx.input|
    ensures NextToken(cfg, lx) == (Ok(Tok("eof", "")), LexState(lx.input, lx.pos + 1))
  {
  }

  /** A word is read to its end and classified; a keyword keeps its ':'. */
  lemma WordToken(cfg: LexConfig, input: string, p: nat, word: string)
    requires |word| > 0 && forall i :: 0 <= i < |word| ==> IsWordChar(word[i])
    requires p + |word| <= |input| && input[p..p + |word|] == word
    requires !IsWordChar(CharAt(input, p + |word|))
    requires Classify(cfg, cfg.matchers, word) in cfg.labels
    ensures NextToken(cfg, LexState(input, p))
            == (Ok(Tok(Classify(cfg, cfg.matchers, word), word)), LexState(input, p + |word|))
  {
    var c := input[p];
    assert c == word[0] && IsWordChar(c);
    assert !IsWhitespace(c) && c != '\'' && c != ';' && !IsPunctuation(c) && c != '"' && c != '\0';
    assert SkipWS(input, p) == p;
    WordEndOf(input, p, word, 0);
    assert input[p..WordEnd(input, p)] == word;
  }

  lemma {:induction false} WordEndOf(input: string, p: nat, word: string, i: nat)
    requires i <= |word| && forall k :: 0 <= k < |word| ==> IsWordChar(word[k])
    requires p + |word| <= |input| && input[p..p + |word|] == word
    requires !IsWordChar(CharAt(input, p + |word|))
    ensures WordEnd(input, p + i) == p + |word|
    decreases |word| - i
  {
    if i < |word| {
      assert input[p + i] == word[i];
      WordEndOf(input, p, word, i + 1);
    }
  }

  /** With the matchers of `init`, a word starting with ':' is a keyword
      token whose value is the whole word, colon included. */
  lemma KeywordToken(cfg: LexConfig, input: string, p: nat, word: string)
    requires cfg.matchers == [HookedMatcher, KeywordMatcher, NumberMatcher, IdentifierMatcher]
    requires "keyword" in cfg.labels && word !in cfg.labels
    requires |word| > 0 && word[0] == ':' && forall i :: 0 <= i < |word| ==> IsWordChar(word[i])
    requires p + |word| <= |input| && input[p..p + |word|] == word
    requires !IsWordChar(CharAt(input, p + |word|))
    ensures NextToken(cfg, LexState(input, p)) == (Ok(Tok("keyword", word)), LexState(input, p + |word|))
  {
    InitClassification(cfg, word);
    WordToken(cfg, input, p, word);
  }

  /** A string token's value is the raw text between the quotes: there are
      no escapes. */
  lemma StringToken(cfg: LexConfig, input: string, p: nat, s: string)
    requires "string" in cfg.labels
    requires forall i :: 0 <= i < |s| ==> s[i] != '"' && s[i] != '\0'
    requires p + |s| + 2 <= |input| && input[p..p + |s| + 2] == "\"" + s + "\""
    ensures NextToken(cfg, LexState(input, p)) == (Ok(Tok("string", s)), LexState(input, p + |s| + 2))
  {
    assert input[p] == '"';
    assert SkipWS(input, p) == p;
    StringEndOf(input, p, s, 0);
    var w := input[p..p + |s| + 2];
    assert forall k :: 0 <= k < |s| ==> input[p + 1 + k] == w[k + 1] == s[k];
    assert input[p + 1..p + |s| + 1] == s;
    ReadString(cfg, input, p);
  }

  /** The branch of `ReadAt` for an opening double quote. */
  lemma ReadString(cfg: LexConfig, input: string, p: nat)
    requires p < |input| && input[p] == '"'
    ensures var q := StringEnd(input, p + 1);
            ReadAt(cfg, input, p) == (NewToken(cfg, "string", input[p + 1..q]), LexState(input, q + 1))
  {
    assert CharAt(input, p) == '"';
    assert !IsPunctuation('"');
  }

  lemma {:induction false} StringEndOf(input: string, p: nat, s: string, i: nat)
    requires i <= |s|
    requires forall k :: 0 <= k < |s| ==> s[k] != '"' && s[k] != '\0'
    requires p + |s| + 2 <= |input| && input[p..p + |s| + 2] == "\"" + s + "\""
    ensures StringEnd(input, p + 1 + i) == p + |s| + 1
    decreases |s| - i
  {
    assert input[p + |s| + 1] == '"';
    if i < |s| {
      assert input[p + 1 + i] == s[i];
      StringEndOf(input, p, s, i + 1);
    }
  }

  /** A punctuation character is a token of its own, named by itself. */
  lemma PunctuationToken(cfg: LexConfig, input: string, p: nat)
    requires p < |input| && IsPunctuation(input[p]) && [input[p]] in cfg.labels
    ensures NextToken(cfg, LexState(input, p))
            == (Ok(Tok([input[p]], [input[p]])), LexState(input, p + 1))
  {
    assert SkipWS(input, p) == p;
  }

  /** A character that is neither whitespace, punctuation, a quote, ';',
      NUL nor a word character gives an unknown token and the lexer does not
      move. */
  lemma StrayCharacter(cfg: LexConfig, lx: LexState)
    requires lx.pos < |lx.input|
    requires var c := lx.input[lx.pos];
             !IsWhitespace(c) && !IsPunctuation(c) && !IsWordChar(c)
             && c != '\'' && c != ';' && c != '"' && c != '\0'
    ensures NextToken(cfg, lx).1 == lx
    ensures NextToken(cfg, lx).0 == NewToken(cfg, Unknown, [lx.input[lx.pos]])
  {
  }

  /** `LineEnd` finds the first newline, and finds none only when there is
      none. */
  lemma {:induction false} LineEndIsFirst(input: string, i: nat)
    ensures var j := LineEnd(input, i);
            (j.Some? ==> forall k :: i <= k < j.value ==> input[k] != '\n')
            && (j.None? <==> forall k :: i <= k < |input| ==> input[k] != '\n')
    decreases |input| - i
  {
    if i < |input| && input[i] != '\n' {
      LineEndIsFirst(input, i + 1);
    }
  }

  /** A comment with no newline after it never ends. */
  lemma UnterminatedComment(cfg: LexConfig, lx: LexState)
    requires lx.pos < |lx.input| && lx.input[lx.pos] == ';'
    requires forall k :: lx.pos < k < |lx.input| ==> lx.input[k] != '\n'
    ensures NextToken(cfg, lx).0.Fail? && NextToken(cfg, lx).0.error.Diverges?
  {
    var r := LineEnd(lx.input, lx.pos + 1);
    assert r.None?;
  }

  /** A terminated comment's value is the text after ';' up to the newline,
      and the newline is consumed. */
  lemma CommentToken(cfg: LexConfig, text: string, rest: string)
    requires ";" in cfg.labels
    requires forall i :: 0 <= i < |text| ==> text[i] != '\n'
    ensures var input := ";" + text + "\n" + rest;
            NextToken(cfg, LexState(input, 0)) == (Ok(Tok(";", text)), LexState(input, |text| + 2))
  {
    var input := ";" + text + "\n" + rest;
    assert input[|text| + 1] == '\n';
    assert forall k :: 1 <= k < |text| + 1 ==> input[k] == text[k - 1];
    var q := LineEnd(input, 1);
    LineEndIsFirst(input, 1);
    assert q == Some(|text| + 1);
    assert input[1..|text| + 1] == text;
  }

  // ---------------------------------------------------------------------
  // The token stream, as the lexer tests consume it: tokens up to eof or
  // the first error.

  /** Calls `NextToken` until eof or an error. A token that does not move
      the lexer would be returned forever: that loop diverges. */
  function Tokenize(cfg: LexConfig, lx: LexState): (r: Outcome<seq<Tok>>)
    requires lx.pos <= |lx.input| + 2
    decreases |lx.input| + 3 - lx.pos
  {
    var (t, lx1) := NextToken(cfg, lx);
    if t.Fail? then Fail(t.error)
    else if t.value.kind == "eof" then Ok([])
    else if lx1.pos == lx.pos then Fail(Diverges("the lexer does not advance"))
    else
      var rest :- Tokenize(cfg, lx1);
      Ok([t.value] + rest)
  }

  /** One step of `Tokenize`: a token other than eof that moves the lexer is
      followed by the tokens from the new position. */
  lemma TokenizeStep(cfg: LexConfig, lx: LexState, t: Tok, lx1: LexState)
    requires lx.pos <= |lx.input| + 2
    requires NextToken(cfg, lx) == (Ok(t), lx1) && t.kind != "eof" && lx1.pos != lx.pos
    ensures lx1.pos <= |lx1.input| + 2
    ensures Tokenize(cfg, lx1).Ok? ==> Tokenize(cfg, lx) == Ok([t] + Tokenize(cfg, lx1).value)
    ensures Tokenize(cfg, lx1).Fail? ==> Tokenize(cfg, lx) == Tokenize(cfg, lx1)
  {
  }

  /** The configuration of the lexer tests. `ParseFloat` rejects the words
      they use, which is all the lemmas below ask of `isFloat`. */
  function TestConfig(isFloat: string -> bool): LexConfig {
    LexConfig({"(", ")", "\"", "identifier", "eof", "match", "name", "string"},
              [HookedMatcher, KeywordMatcher, NumberMatcher, IdentifierMatcher], isFloat)
  }

  /** The lexer test `TestLexerSimple`. */
  lemma LexerSimple(isFloat: string -> bool)
    requires !isFloat("desc")
    ensures Tokenize(TestConfig(isFloat), NewLexer("(desc)"))
            == Ok([Tok("(", "("), Tok("identifier", "desc"), Tok(")", ")")])
  {
    var cfg := TestConfig(isFloat);
    var input := "(desc)";
    SimpleFromDesc(isFloat);
    PunctuationToken(cfg, input, 0);
    TokenizeStep(cfg, LexState(input, 0), Tok("(", "("), LexState(input, 1));
    assert [Tok("(", "(")] + [Tok("identifier", "desc"), Tok(")", ")")]
        == [Tok("(", "("), Tok("identifier", "desc"), Tok(")", ")")];
  }

  lemma SimpleFromDesc(isFloat: string -> bool)
    requires !isFloat("desc")
    ensures Tokenize(TestConfig(isFloat), LexState("(desc)", 1)) == Ok([Tok("identifier", "desc"), Tok(")", ")")])
  {
    var cfg := TestConfig(isFloat);
    var input := "(desc)";
    SimpleFromClose(isFloat);
    DescToken(isFloat);
    TokenizeStep(cfg, LexState(input, 1), Tok("identifier", "desc"), LexState(input, 5));
    assert [Tok("identifier", "desc")] + [Tok(")", ")")] == [Tok("identifier", "desc"), Tok(")", ")")];
  }

  lemma DescToken(isFloat: string -> bool)
    requires !isFloat("desc")
    ensures NextToken(TestConfig(isFloat), LexState("(desc)", 1))
            == (Ok(Tok("identifier", "desc")), LexState("(desc)", 5))
  {
    var cfg := TestConfig(isFloat);
    InitClassification(cfg, "desc");
    assert !HasPrefix("desc", ":") by {
      assert "desc"[0] == 'd';
    }
    assert Classify(cfg, cfg.matchers, "desc") == "identifier";
    assert "(desc)"[1..5] == "desc";
    WordToken(cfg, "(desc)", 1, "desc");
  }

  lemma SimpleFromClose(isFloat: string -> bool)
    ensures Tokenize(TestConfig(isFloat), LexState("(desc)", 5)) == Ok([Tok(")", ")")])
  {
    var cfg := TestConfig(isFloat);
    var input := "(desc)";
    PunctuationToken(cfg, input, 5);
    EndOfInputIsEof(cfg, LexState(input, 6));
    assert Tokenize(cfg, LexState(input, 6)) == Ok([]);
    TokenizeStep(cfg, LexState(input, 5), Tok(")", ")"), LexState(input, 6));
    assert [Tok(")", ")")] + [] == [Tok(")", ")")];
  }


}
