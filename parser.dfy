/** The parser of core/parser.py: a stream processor over the lexer's tokens whose leaf rule
    is the token Literal, run after the lexer. */
module Parser {
  import opened Results
  import opened Processor
  import StreamProcessor
  import opened Lexer

  /** A parser rule; its leaf is a token Literal, holding the rule name of the token it matches. */
  type ParserRule = Rule<string>

  /** Literal.pred: the head token comes from the named lexer rule. */
  predicate LiteralPred(ruleName: string, head: Token) {
    head.ruleName == ruleName
  }

  /** Literal.result: the head token as a leaf. */
  function LiteralResult(head: Token): Result<Token> {
    Leaf(head)
  }

  /** The parser's leaf rules are token Literals; its While is UntilEmpty. */
  function ParserSem(): Sem<string, Token, seq<Token>> {
    Sem((l: string, s: seq<Token>) => StreamProcessor.HeadApply((h: Token) => LiteralPred(l, h), LiteralResult, s),
        StreamProcessor.NonEmpty, StreamProcessor.Step)
  }

  /** A token Literal matches exactly when the stream is not empty and the head token has the
      literal's rule name; it then gives that token as a leaf and consumes exactly it. */
  lemma TokenLiteralMatches(p: Processor<string>, ruleName: string, s: seq<Token>, fuel: nat)
    ensures Apply(ParserSem(), p, HeadRule(ruleName), s, fuel).Matched? <==> |s| > 0 && s[0].ruleName == ruleName
    ensures Apply(ParserSem(), p, HeadRule(ruleName), s, fuel).Matched? ==>
      Apply(ParserSem(), p, HeadRule(ruleName), s, fuel) == Matched(Leaf(s[0]), s[1..])
  {
  }

  /** Every parser rule gives, as its values, exactly the tokens it consumed. */
  lemma ParserSemConserves()
    ensures StreamProcessor.Conserving(ParserSem())
  {
    var sem := ParserSem();
    forall l: string, s: seq<Token>
      ensures sem.leaf(l, s).Matched? ==> StreamProcessor.Consumed(sem.leaf(l, s), s)
    {
      StreamProcessor.LeafHeadConserves((h: Token) => LiteralPred(l, h), s);
    }
    forall s: seq<Token>
      ensures sem.step(s).Matched? ==> StreamProcessor.Consumed(sem.step(s), s)
    {
      StreamProcessor.StepConserves(s);
    }
  }

  /** Parser: a root rule name, the parser rules, and the rules of its lexer. */
  datatype Parser = Parser(root: string, rules: map<string, ParserRule>, lexer: OrderedMap<LexRule>)

  function ProcessorOf(p: Parser): Processor<string> {
    Processor(p.root, p.rules)
  }

  /** What a parser run gives: the root result, a raised Error, or an abort (a failed `assert`
      in the lexer's conversion, or a run that does not finish). */
  datatype ParseOutcome = Parsed(result: Result<Token>) | ParseFailed(error: Error<seq<Token>>) | ParseAborted(reason: string)

  /** Parser.apply: lex the text, then apply the root rule to the tokens. A lexer failure is
      reported as a 'lex error' holding the lexer's error as its only child. */
  function Parse(p: Parser, input: string, fuel: nat): (o: ParseOutcome)
    ensures Lex(p.lexer, input, fuel).LexFailed? ==>
      o == ParseFailed(Error(Some("lex error"), None, None, [Detach(Lex(p.lexer, input, fuel).error)]))
    ensures Lex(p.lexer, input, fuel).Aborted? ==> o.ParseAborted?
    ensures o.Parsed? ==> Lex(p.lexer, input, fuel).Lexed? && o.result.ruleName == Some(p.root)
    ensures Lex(p.lexer, input, fuel).Lexed? ==>
      var run := ApplyRoot(ParserSem(), ProcessorOf(p), Lex(p.lexer, input, fuel).tokens, fuel);
      (o.Parsed? <==> run.Matched?) &&
      (run.Matched? ==> o.result == run.result) &&
      (run.Failed? ==> o == ParseFailed(run.error))
  {
    match Lex(p.lexer, input, fuel)
    case LexFailed(e) => ParseFailed(Error(Some("lex error"), None, None, [Detach(e)]))
    case Aborted(reason) => ParseAborted(reason)
    case Lexed(tokens) =>
      match ApplyRoot(ParserSem(), ProcessorOf(p), tokens, fuel)
      case Matched(r, _) => Parsed(r)
      case Failed(e) => ParseFailed(e)
      case OutOfFuel => ParseAborted("out of fuel")
  }

  /** The tokens a parse result holds are the first tokens of the lexer's output, in order;
      so no token of an excluded (`_`-prefixed) lexer rule ever reaches a parser rule. */
  lemma ParsedValuesAreTokens(p: Parser, input: string, fuel: nat)
    ensures Parse(p, input, fuel).Parsed? ==>
      TopValues(Parse(p, input, fuel).result) <= Lex(p.lexer, input, fuel).tokens
    ensures Parse(p, input, fuel).Parsed? ==>
      forall t :: t in TopValues(Parse(p, input, fuel).result) ==> !(ExcludePrefix <= t.ruleName) && |t.value| > 0
  {
    var o := Parse(p, input, fuel);
    if o.Parsed? {
      var tokens := Lex(p.lexer, input, fuel).tokens;
      ParserSemConserves();
      StreamProcessor.ApplyNameConserves(ParserSem(), ProcessorOf(p), p.root, tokens, fuel);
      var m := ApplyRoot(ParserSem(), ProcessorOf(p), tokens, fuel);
      assert TopValues(m.result) + m.state == tokens;
      forall t | t in TopValues(o.result)
        ensures t in tokens
      {
        var i :| 0 <= i < |TopValues(o.result)| && TopValues(o.result)[i] == t;
        assert tokens[i] == t;
      }
    }
  }

  /** The processor of the parser's unit test, with the token named by a token Literal. */
  function IdsProcessor(): Processor<string> {
    Processor("root", map["root" := StreamProcessor.UntilEmpty(Ref("expr")), "expr" := Or([HeadRule("id")])])
  }

  /** The same processor as the unit test writes it, naming the token rule `id` by a Ref. */
  function IdsRefProcessor(): Processor<string> {
    Processor("root", map["root" := StreamProcessor.UntilEmpty(Ref("expr")), "expr" := Or([Ref("id")])])
  }

  function IdToken(value: string, column: int): Token {
    Token("id", value, Position(0, column))
  }

  function ExprOf(t: Token): Result<Token> {
    Result(None, Some("expr"), [Leaf(t)])
  }

  /** `expr` matches one `id` token, giving it under the rule name. */
  lemma ExprMatchesId(t: Token, rest: seq<Token>, fuel: nat)
    requires t.ruleName == "id" && fuel > 0
    ensures ApplyName(ParserSem(), IdsProcessor(), "expr", [t] + rest, fuel) == Matched(ExprOf(t), rest)
  {
    var sem := ParserSem();
    var p := IdsProcessor();
    var s := [t] + rest;
    assert s[0] == t && s[1..] == rest;
    TokenLiteralMatches(p, "id", s, fuel - 1);
    assert Apply(sem, p, HeadRule("id"), s, fuel - 1) == Matched(Leaf(t), rest);
    var cs: seq<ParserRule> := [HeadRule("id")];
    assert cs[0] == HeadRule("id");
    assert OrFrom(sem, p, cs, s, fuel - 1) == Matched(AsChild(Leaf(t)), rest);
    assert p.rules["expr"] == Or(cs);
    assert Simplify(Leaf(t)) == Leaf(t);
    assert SimplifyAll([Leaf(t)]) == [Leaf(t)] by {
      assert [Leaf(t)][1..] == [];
    }
    assert Simplify(WithRuleName(AsChild(Leaf(t)), "expr")) == ExprOf(t);
  }

  /** The `expr` results of a sequence of tokens, and the same each nested by a Ref. */
  function Exprs(xs: seq<Token>): seq<Result<Token>> {
    seq(|xs|, i requires 0 <= i < |xs| => ExprOf(xs[i]))
  }

  function NestedExprs(xs: seq<Token>): seq<Result<Token>> {
    seq(|xs|, i requires 0 <= i < |xs| => Node([ExprOf(xs[i])]))
  }

  /** UntilEmpty over `expr` consumes a stream of `id` tokens whole, one `expr` per token. */
  lemma {:induction false} IdsLoop(xs: seq<Token>, fuel: nat)
    requires forall i :: 0 <= i < |xs| ==> xs[i].ruleName == "id"
    requires fuel >= |xs|
    ensures WhileFrom(ParserSem(), IdsProcessor(), Ref("expr"), xs, fuel) == Matched(Node(NestedExprs(xs)), [])
    decreases |xs|
  {
    if xs == [] {
      assert NestedExprs(xs) == [];
    } else {
      assert [xs[0]] + xs[1..] == xs;
      ExprMatchesId(xs[0], xs[1..], fuel);
      IdsLoop(xs[1..], fuel - 1);
      assert NestedExprs(xs) == [Node([ExprOf(xs[0])])] + NestedExprs(xs[1..]);
    }
  }

  lemma {:induction false} SimplifyAllOfExprs(xs: seq<Token>)
    ensures SimplifyAll(NestedExprs(xs)) == Exprs(xs)
    decreases |xs|
  {
    if xs != [] {
      var ns := NestedExprs(xs);
      assert ns[0] == Node([ExprOf(xs[0])]);
      assert Simplify(ns[0]) == ExprOf(xs[0]);
      assert !Empty(ns[0]) by {
        assert ns[0].children[0] == ExprOf(xs[0]);
      }
      assert ns[1..] == NestedExprs(xs[1..]);
      assert SimplifyAll(ns) == [Simplify(ns[0])] + SimplifyAll(ns[1..]);
      SimplifyAllOfExprs(xs[1..]);
      assert Exprs(xs) == [ExprOf(xs[0])] + Exprs(xs[1..]);
    }
  }

  /** With an UntilEmpty root over `expr`, a stream of `id` tokens gives the root result with
      one `expr` result per token, in order, and nothing left. */
  lemma IdsParse(xs: seq<Token>, fuel: nat)
    requires forall i :: 0 <= i < |xs| ==> xs[i].ruleName == "id"
    requires fuel > |xs|
    ensures ApplyRoot(ParserSem(), IdsProcessor(), xs, fuel) == Matched(Result(None, Some("root"), Exprs(xs)), [])
  {
    var sem := ParserSem();
    var p := IdsProcessor();
    IdsLoop(xs, fuel - 1);
    SimplifyAllOfExprs(xs);
    assert p.rules["root"] == While(Ref("expr"));
    assert Apply(sem, p, p.rules["root"], xs, fuel - 1) == Matched(Node(NestedExprs(xs)), []);
    var w := WithRuleName(Node(NestedExprs(xs)), "root");
    assert !Collapsible(w);
    assert Simplify(w) == Result(None, Some("root"), SimplifyAll(NestedExprs(xs)));
  }

  /** The tokens of 'a b c' give three `expr` results under the root, at columns 0, 2 and 4. */
  lemma IdsExample()
    ensures ApplyRoot(ParserSem(), IdsProcessor(), [IdToken("a", 0), IdToken("b", 2), IdToken("c", 4)], 10)
      == Matched(Result(None, Some("root"), [ExprOf(IdToken("a", 0)), ExprOf(IdToken("b", 2)), ExprOf(IdToken("c", 4))]), [])
  {
    var xs := [IdToken("a", 0), IdToken("b", 2), IdToken("c", 4)];
    IdsParse(xs, 10);
    assert Exprs(xs) == [ExprOf(xs[0]), ExprOf(xs[1]), ExprOf(xs[2])];
  }

  /** As the unit test writes it, `Ref("id")` names no parser rule, so the first token already fails. */
  lemma IdsRefFails()
    ensures ApplyRoot(ParserSem(), IdsRefProcessor(), [IdToken("a", 0)], 10).Failed?
  {
    var sem := ParserSem();
    var p := IdsRefProcessor();
    assert ApplyName(sem, p, "id", [IdToken("a", 0)], 8).Failed?;
    assert WhileFrom(sem, p, Ref("expr"), [IdToken("a", 0)], 9).Failed?;
  }
}
