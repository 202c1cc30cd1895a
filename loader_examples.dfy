/** The rows of the load_lex_rule table of core/loader_test.py, proved on the parse trees the
    regex parser gives for them: each tree is written out as the parser builds it (a named
    literal keeps its token, an Or or a Ref leaves one child, a sequence of one result
    collapses to that result), and loading it gives the rule the table expects. */
module LoaderExamples {
  import opened Results
  import opened Processor
  import StreamProcessor
  import opened Lexer
  import opened Loader

  /** A token of the regex lexer on the first line. */
  function Tok(ruleName: string, text: string, column: int): Token {
    Token(ruleName, text, Position(0, column))
  }

  /** A node a named rule of the regex parser gives, once simplified. */
  function Named(name: string, cs: seq<Result<Token>>): Result<Token> {
    Result(None, Some(name), cs)
  }

  /** A named rule that is a token literal: it keeps the token. */
  function Lexeme(name: string, t: Token): Result<Token> {
    Result(Some(t), Some(name), [])
  }

  /** A token matched by a literal inside a sequence. */
  function Op(text: string, column: int): Result<Token> {
    Leaf(Tok(text, text, column))
  }

  /** `literal`: one `char` token. */
  function CharLit(c: string, column: int): Result<Token> {
    Lexeme("literal", Tok("char", c, column))
  }

  /** `operand` over x. */
  function Operand(x: Result<Token>): Result<Token> {
    Named("operand", [x])
  }

  /** `rule` over `operand` over x. */
  function RuleOfOperand(x: Result<Token>): Result<Token> {
    Named("rule", [Operand(x)])
  }

  /** `rule` over `operation` over x. */
  function RuleOfOperation(x: Result<Token>): Result<Token> {
    Named("rule", [Named("operation", [x])])
  }

  /** The tree of a regex of one top-level rule. */
  function Root(rule: Result<Token>): Result<Token> {
    Named("root", [rule])
  }

  /** `\` followed by the escaped token. */
  function Special(escaped: Token): Result<Token> {
    Named("special", [Op("\\", 0), Named("special_char", [Leaf(escaped)])])
  }

  /** A class part that is a range of two `char` tokens starting at the column. */
  function RangePart(min: string, max: string, column: int): Result<Token> {
    Named("class_part", [RangeNode(min, max, column)])
  }

  /** A range of two `char` tokens starting at the column. */
  function RangeNode(min: string, max: string, column: int): Result<Token> {
    Named("range", [Leaf(Tok("char", min, column)), Op("-", column + 1), Leaf(Tok("char", max, column + 2))])
  }

  /** A class: its brackets around the node of its parts, the closing one at the column. */
  function ClassNode(parts: Result<Token>, close: int): Result<Token> {
    Named("class", [Op("[", 0), parts, Op("]", close)])
  }

  /** A postfix operation on the literal `a`. */
  function Postfix(name: string, op: string): Result<Token> {
    Root(RuleOfOperation(Named(name, [Operand(CharLit("a", 0)), Op(op, 1)])))
  }

  /** A sequence of two elements, written out. */
  lemma PairIs<T>(s: seq<T>, a: T, b: T)
    requires |s| == 2 && s[0] == a && s[1] == b
    ensures s == [a, b]
  {
  }

  /** The only match of a one-child node whose own name does not match is its child's. */
  lemma {:induction false} MatchesBelow(name: string, x: Result<Token>, cond: Result<Token> -> bool)
    requires !cond(Named(name, [x])) && !cond(Node([x])) && cond(x)
    ensures Matches(Named(name, [x]), cond) == [x]
    ensures Matches(Skip(Named(name, [x])), cond) == [x]
  {
    assert [x][1..] == [];
    assert MatchesAll([x], cond) == Matches(x, cond) + MatchesAll([], cond);
  }

  /** The matches of a list of nodes are those of its head followed by those of its tail. */
  lemma {:induction false} MatchesCons(c: Result<Token>, cs: seq<Result<Token>>, cond: Result<Token> -> bool)
    ensures MatchesAll([c] + cs, cond) == Matches(c, cond) + MatchesAll(cs, cond)
  {
    assert ([c] + cs)[0] == c && ([c] + cs)[1..] == cs;
  }

  /** The matches of two nodes, in order. */
  lemma {:induction false} MatchesTwo(a: Result<Token>, b: Result<Token>, cond: Result<Token> -> bool)
    ensures MatchesAll([a, b], cond) == Matches(a, cond) + Matches(b, cond)
  {
    MatchesCons(b, [], cond);
    MatchesCons(a, [b], cond);
    assert [a, b] == [a] + [b] && [b] == [b] + [];
  }

  /** The matches of three nodes, in order. */
  lemma {:induction false} MatchesThree(a: Result<Token>, b: Result<Token>, c: Result<Token>, cond: Result<Token> -> bool)
    ensures MatchesAll([a, b, c], cond) == Matches(a, cond) + Matches(b, cond) + Matches(c, cond)
  {
    MatchesTwo(b, c, cond);
    MatchesCons(a, [b, c], cond);
    assert [a, b, c] == [a] + [b, c];
  }

  /** A token matched inside a sequence is no match of a condition on rule names. */
  lemma {:induction false} OpMatchesNothing(text: string, column: int, cond: Result<Token> -> bool)
    requires !cond(Op(text, column))
    ensures Matches(Op(text, column), cond) == []
  {
  }

  /** The tree of one top-level rule loads as that rule. */
  lemma {:induction false} TopRuleLoads(rule: Result<Token>)
    requires rule.ruleName == Some("rule")
    ensures LoadAnd(Root(rule)) == LoadRule(rule)
  {
    MatchesBelow("root", rule, RuleNameIs("rule"));
    assert Nodes(Root(rule), "rule") == [rule];
    assert [rule][1..] == [];
  }

  /** A rule over an operand or an operation selects the node below them. */
  lemma {:induction false} SelectsBelow(x: Result<Token>)
    requires x.ruleName.Some? && x.ruleName.value in RuleKeys
    ensures Select(RuleKeys, RuleOfOperand(x)) == Ok(x)
    ensures Select(RuleKeys, Operand(x)) == Ok(x)
    ensures Select(RuleKeys, RuleOfOperation(x)) == Ok(x)
  {
    MatchesBelow("operand", x, NameIn(RuleKeys));
    assert Skip(RuleOfOperand(x)) == Node([Operand(x)]);
    assert [Operand(x)][1..] == [];
    assert MatchesAll([Operand(x)], NameIn(RuleKeys)) == Matches(Operand(x), NameIn(RuleKeys)) + MatchesAll([], NameIn(RuleKeys));
    MatchesBelow("operation", x, NameIn(RuleKeys));
    var operation := Named("operation", [x]);
    assert [operation][1..] == [];
    assert MatchesAll([operation], NameIn(RuleKeys)) == Matches(operation, NameIn(RuleKeys)) + MatchesAll([], NameIn(RuleKeys));
  }

  /** A `char` token named by a literal rule loads as the Literal of its character. */
  lemma {:induction false} CharLoads(c: char, column: int)
    ensures LoadLiteral(CharLit([c], column)) == Ok(HeadRule(Literal(c)))
  {
    assert Matches(CharLit([c], column), HasValue) == [CharLit([c], column)];
  }

  /** An operand over a literal loads as the Literal of its character. */
  lemma {:induction false} OperandLoads(c: char, column: int)
    ensures LoadRule(Operand(CharLit([c], column))) == Ok(HeadRule(Literal(c)))
    ensures LoadRule(RuleOfOperand(CharLit([c], column))) == Ok(HeadRule(Literal(c)))
  {
    SelectsBelow(CharLit([c], column));
    CharLoads(c, column);
  }

  /** `\` and a token load as SpecialRule of the token's text. */
  lemma {:induction false} SpecialLoads(t: Token)
    ensures LoadSpecial(Special(t)) == SpecialRule(t.value)
  {
    var sc := Named("special_char", [Leaf(t)]);
    var cs := [Op("\\", 0), sc];
    var cond := RuleNameIs("special_char");
    MatchesCons(sc, [], cond);
    MatchesCons(Op("\\", 0), [sc], cond);
    OpMatchesNothing("\\", 0, cond);
    assert cs == [Op("\\", 0)] + [sc] && [sc] == [sc] + [];
    assert Matches(Special(t), cond) == [sc];
    MatchesBelow("special_char", Leaf(t), HasValue);
  }

  /** The top-level rule of a regex that is one escaped token. */
  lemma {:induction false} SpecialRegexLoads(t: Token)
    ensures LoadAnd(Root(RuleOfOperand(Special(t)))) == SpecialRule(t.value)
  {
    TopRuleLoads(RuleOfOperand(Special(t)));
    SelectsBelow(Special(t));
    SpecialLoads(t);
  }

  /** A postfix operation on `a` loads as the operator applied to Literal('a'). */
  lemma {:induction false} PostfixLoads(name: string, op: string)
    requires name in {"zero_or_more", "one_or_more", "zero_or_one", "until_empty"}
    ensures LoadAnd(Postfix(name, op)) == Ok(Wrap(name, HeadRule(Literal('a'))))
  {
    var operand := Operand(CharLit("a", 0));
    var node := Named(name, [operand, Op(op, 1)]);
    var cond := RuleNameIs("operand");
    MatchesCons(operand, [Op(op, 1)], cond);
    MatchesCons(Op(op, 1), [], cond);
    OpMatchesNothing(op, 1, cond);
    assert [operand, Op(op, 1)] == [operand] + [Op(op, 1)] && [Op(op, 1)] == [Op(op, 1)] + [];
    assert Matches(node, cond) == [operand];
    OperandLoads('a', 0);
    TopRuleLoads(RuleOfOperation(node));
    SelectsBelow(node);
  }

  /** 'a' loads as Literal('a'). */
  lemma LoadsLiteral()
    ensures LoadAnd(Root(RuleOfOperand(CharLit("a", 0)))) == Ok(HeadRule(Literal('a')))
  {
    TopRuleLoads(RuleOfOperand(CharLit("a", 0)));
    OperandLoads('a', 0);
  }

  /** '.' loads as Any. */
  lemma LoadsAny()
    ensures LoadAnd(Root(RuleOfOperand(Lexeme("any", Tok(".", ".", 0))))) == Ok(HeadRule(Any))
  {
    var any := Lexeme("any", Tok(".", ".", 0));
    TopRuleLoads(RuleOfOperand(any));
    SelectsBelow(any);
  }

  /** '\w' loads as the whitespace class. */
  lemma LoadsWhitespace()
    ensures LoadAnd(Root(RuleOfOperand(Special(Tok("char", "w", 1))))) == Ok(HeadRule(WhitespaceClass()))
  {
    SpecialRegexLoads(Tok("char", "w", 1));
  }

  /** '\.' loads as Literal('.'). */
  lemma LoadsEscapedOperator()
    ensures LoadAnd(Root(RuleOfOperand(Special(Tok(".", ".", 1))))) == Ok(HeadRule(Literal('.')))
  {
    SpecialRegexLoads(Tok(".", ".", 1));
  }

  /** '\a' is an Error: `a` is neither `w` nor an operator. */
  lemma RejectsInvalidSpecial()
    ensures var o := LoadAnd(Root(RuleOfOperand(Special(Tok("char", "a", 1)))));
      o.Err? && o.error.msg == Some("invalid special char ")
  {
    SpecialRegexLoads(Tok("char", "a", 1));
    NotAnOperator();
  }

  /** `a` is not one of the regex operators. */
  lemma NotAnOperator()
    ensures !Contains(Operators(), "a")
  {
    ContainsOne(Operators(), "a");
    assert 'a' !in Operators();
  }

  /** The `and` node of '(ab)'. */
  function AndOfAB(): Result<Token> {
    AndNode(RuleOfOperand(CharLit("a", 1)), RuleOfOperand(CharLit("b", 2)))
  }

  /** The `and` node of '(' rA rB ')'. */
  function AndNode(rA: Result<Token>, rB: Result<Token>): Result<Token> {
    Named("and", [Op("(", 0), Node([rA, rB]), Op(")", 3)])
  }

  /** The `rule` nodes of a parenthesised pair are the pair, in order. */
  lemma {:induction false} AndNodes(rA: Result<Token>, rB: Result<Token>)
    requires rA.ruleName == Some("rule") && rB.ruleName == Some("rule")
    ensures Nodes(AndNode(rA, rB), "rule") == [rA, rB]
  {
    var cond := RuleNameIs("rule");
    MatchesTwo(rA, rB, cond);
    MatchesThree(Op("(", 0), Node([rA, rB]), Op(")", 3), cond);
    OpMatchesNothing("(", 0, cond);
    OpMatchesNothing(")", 3, cond);
  }

  /** load_and of a node whose `rule` nodes are two loadable rules is the And of their rules. */
  lemma {:induction false} AndOfTwoRules(node: Result<Token>, rA: Result<Token>, rB: Result<Token>, la: LexRule, lb: LexRule)
    requires Nodes(node, "rule") == [rA, rB]
    requires LoadRule(rA) == Ok(la) && LoadRule(rB) == Ok(lb)
    ensures LoadAnd(node) == Ok(And([la, lb]))
  {
    var cs := Nodes(node, "rule");
    forall i | 0 <= i < |cs|
      ensures LoadRule(cs[i]).Ok?
    {
      assert cs[i] == if i == 0 then rA else rB;
    }
    var o := LoadAnd(node).value;
    assert LoadRule(cs[0]) == Ok(o.children[0]) && LoadRule(cs[1]) == Ok(o.children[1]);
    PairIs(o.children, la, lb);
  }

  /** load_and of a parenthesised pair of rules. */
  lemma {:induction false} AndOfPairLoads(rA: Result<Token>, rB: Result<Token>, la: LexRule, lb: LexRule)
    requires rA.ruleName == Some("rule") && rB.ruleName == Some("rule")
    requires LoadRule(rA) == Ok(la) && LoadRule(rB) == Ok(lb)
    ensures LoadAnd(AndNode(rA, rB)) == Ok(And([la, lb]))
  {
    AndNodes(rA, rB);
    AndOfTwoRules(AndNode(rA, rB), rA, rB, la, lb);
  }

  /** load_and of the `and` node of '(ab)'. */
  lemma AndOfABLoads()
    ensures LoadAnd(AndOfAB()) == Ok(And([HeadRule(Literal('a')), HeadRule(Literal('b'))]))
  {
    OperandLoads('a', 1);
    OperandLoads('b', 2);
    AndOfPairLoads(RuleOfOperand(CharLit("a", 1)), RuleOfOperand(CharLit("b", 2)), HeadRule(Literal('a')), HeadRule(Literal('b')));
  }

  /** '(ab)' loads as And([Literal('a'), Literal('b')]). */
  lemma LoadsAnd()
    ensures LoadAnd(Root(RuleOfOperand(AndOfAB()))) == Ok(And([HeadRule(Literal('a')), HeadRule(Literal('b'))]))
  {
    AndOfABLoads();
    TopRuleLoads(RuleOfOperand(AndOfAB()));
    SelectsBelow(AndOfAB());
  }

  /** The `or` node of '(a|b)'. */
  function OrOfAB(): Result<Token> {
    OrNode(RuleOfOperand(CharLit("a", 1)), RuleOfOperand(CharLit("b", 3)))
  }

  /** The `or` node of '(' rA '|' rB ')'. */
  function OrNode(rA: Result<Token>, rB: Result<Token>): Result<Token> {
    Named("or", [Op("(", 0), rA, Node([Op("|", 2), AsChild(rB)]), Op(")", 4)])
  }

  /** The `rule` nodes of a parenthesised alternative are its two rules, in order. */
  lemma {:induction false} OrNodes(rA: Result<Token>, rB: Result<Token>)
    requires rA.ruleName == Some("rule") && rB.ruleName == Some("rule")
    ensures Nodes(OrNode(rA, rB), "rule") == [rA, rB]
  {
    var bar := Node([Op("|", 2), AsChild(rB)]);
    var cond := RuleNameIs("rule");
    MatchesCons(rB, [], cond);
    assert [rB] == [rB] + [];
    MatchesTwo(Op("|", 2), AsChild(rB), cond);
    MatchesThree(rA, bar, Op(")", 4), cond);
    MatchesCons(Op("(", 0), [rA, bar, Op(")", 4)], cond);
    assert [Op("(", 0), rA, bar, Op(")", 4)] == [Op("(", 0)] + [rA, bar, Op(")", 4)];
    OpMatchesNothing("(", 0, cond);
    OpMatchesNothing("|", 2, cond);
    OpMatchesNothing(")", 4, cond);
  }

  /** load_or of a node whose `rule` nodes are two loadable rules is the Or of their rules. */
  lemma {:induction false} OrOfTwoRules(node: Result<Token>, rA: Result<Token>, rB: Result<Token>, la: LexRule, lb: LexRule)
    requires Nodes(node, "rule") == [rA, rB]
    requires LoadRule(rA) == Ok(la) && LoadRule(rB) == Ok(lb)
    ensures LoadOr(node) == Ok(Or([la, lb]))
  {
    var cs := Nodes(node, "rule");
    forall i | 0 <= i < |cs|
      ensures LoadRule(cs[i]).Ok?
    {
      assert cs[i] == if i == 0 then rA else rB;
    }
    var o := LoadOr(node).value;
    assert LoadRule(cs[0]) == Ok(o.children[0]) && LoadRule(cs[1]) == Ok(o.children[1]);
    PairIs(o.children, la, lb);
  }

  /** load_or of a parenthesised alternative of two rules. */
  lemma {:induction false} OrOfPairLoads(rA: Result<Token>, rB: Result<Token>, la: LexRule, lb: LexRule)
    requires rA.ruleName == Some("rule") && rB.ruleName == Some("rule")
    requires LoadRule(rA) == Ok(la) && LoadRule(rB) == Ok(lb)
    ensures LoadOr(OrNode(rA, rB)) == Ok(Or([la, lb]))
  {
    OrNodes(rA, rB);
    OrOfTwoRules(OrNode(rA, rB), rA, rB, la, lb);
  }

  /** load_or of the `or` node of '(a|b)'. */
  lemma OrOfABLoads()
    ensures LoadOr(OrOfAB()) == Ok(Or([HeadRule(Literal('a')), HeadRule(Literal('b'))]))
  {
    OperandLoads('a', 1);
    OperandLoads('b', 3);
    OrOfPairLoads(RuleOfOperand(CharLit("a", 1)), RuleOfOperand(CharLit("b", 3)), HeadRule(Literal('a')), HeadRule(Literal('b')));
  }

  /** '(a|b)' loads as Or([Literal('a'), Literal('b')]). */
  lemma LoadsOr()
    ensures LoadAnd(Root(RuleOfOperand(OrOfAB()))) == Ok(Or([HeadRule(Literal('a')), HeadRule(Literal('b'))]))
  {
    OrOfABLoads();
    TopRuleLoads(RuleOfOperand(OrOfAB()));
    SelectsBelow(OrOfAB());
  }

  /** A token node holds one token, whose text get_token_value gives. */
  lemma {:induction false} TokenValueOfLeaf(t: Token)
    ensures GetTokenValue(Leaf(t)) == Ok(t.value)
  {
    assert Matches(Leaf(t), HasValue) == [Leaf(t)];
  }

  /** load_range of the two `char` tokens around `-`. */
  lemma {:induction false} RangeLoads(min: char, max: char, column: int)
    requires min < max
    ensures LoadRange(RangeNode([min], [max], column)) == Ok(HeadRule(Range(min, max)))
  {
    var lo := Leaf(Tok("char", [min], column));
    var hi := Leaf(Tok("char", [max], column + 2));
    var cond := TokenRuleNameIs("char");
    MatchesThree(lo, Op("-", column + 1), hi, cond);
    assert Matches(lo, cond) == [lo] && Matches(hi, cond) == [hi];
    assert Matches(Op("-", column + 1), cond) == [];
    WhereIsPreorder(RangeNode([min], [max], column), cond);
    assert Where(RangeNode([min], [max], column), cond).children == [lo, hi];
    TokenValueOfLeaf(Tok("char", [min], column));
    TokenValueOfLeaf(Tok("char", [max], column + 2));
  }

  /** A class part over a range loads as that range. */
  lemma {:induction false} RangePartLoads(min: char, max: char, column: int)
    requires min < max
    ensures LoadClassPart(RangePart([min], [max], column)) == Ok(HeadRule(Range(min, max)))
  {
    MatchesBelow("class_part", RangeNode([min], [max], column), NameIn(ClassPartKeys));
    RangeLoads(min, max, column);
  }

  /** A class part over a literal loads as the Literal of its character. */
  lemma {:induction false} LiteralPartLoads(c: char, column: int)
    ensures LoadClassPart(Named("class_part", [CharLit([c], column)])) == Ok(HeadRule(Literal(c)))
  {
    MatchesBelow("class_part", CharLit([c], column), NameIn(ClassPartKeys));
    CharLoads(c, column);
  }

  /** A class of one part loads as that part. */
  lemma {:induction false} ClassOfOneLoads(cp: Result<Token>, close: int, l: LexRule)
    requires cp.ruleName == Some("class_part")
    requires LoadClassPart(cp) == Ok(l)
    ensures LoadClass(ClassNode(AsChild(cp), close)) == Ok(l)
  {
    var cond := RuleNameIs("class_part");
    MatchesCons(cp, [], cond);
    assert [cp] == [cp] + [];
    MatchesThree(Op("[", 0), AsChild(cp), Op("]", close), cond);
    OpMatchesNothing("[", 0, cond);
    OpMatchesNothing("]", close, cond);
    assert Nodes(ClassNode(AsChild(cp), close), "class_part") == [cp];
  }

  /** The parts of a class of two parts are those two, in order. */
  lemma {:induction false} ClassOfTwoNodes(cp1: Result<Token>, cp2: Result<Token>, close: int)
    requires cp1.ruleName == Some("class_part") && cp2.ruleName == Some("class_part")
    ensures Nodes(ClassNode(Node([cp1, cp2]), close), "class_part") == [cp1, cp2]
  {
    var cond := RuleNameIs("class_part");
    MatchesTwo(cp1, cp2, cond);
    MatchesThree(Op("[", 0), Node([cp1, cp2]), Op("]", close), cond);
    OpMatchesNothing("[", 0, cond);
    OpMatchesNothing("]", close, cond);
  }

  /** load_class of a node whose parts are two loadable parts is the Or of the two. */
  lemma {:induction false} ClassOfTwoParts(node: Result<Token>, cp1: Result<Token>, cp2: Result<Token>, l1: LexRule, l2: LexRule)
    requires Nodes(node, "class_part") == [cp1, cp2]
    requires LoadClassPart(cp1) == Ok(l1) && LoadClassPart(cp2) == Ok(l2)
    ensures LoadClass(node) == Ok(Or([l1, l2]))
  {
    var cs := Nodes(node, "class_part");
    forall i | 0 <= i < |cs|
      ensures LoadClassPart(cs[i]).Ok?
    {
      assert cs[i] == if i == 0 then cp1 else cp2;
    }
    var o := LoadClass(node).value;
    assert LoadClassPart(cs[0]) == Ok(o.children[0]) && LoadClassPart(cs[1]) == Ok(o.children[1]);
    PairIs(o.children, l1, l2);
  }

  /** A class of two loadable parts loads as the Or of the two. */
  lemma {:induction false} ClassOfTwoLoads(cp1: Result<Token>, cp2: Result<Token>, close: int, l1: LexRule, l2: LexRule)
    requires cp1.ruleName == Some("class_part") && cp2.ruleName == Some("class_part")
    requires LoadClassPart(cp1) == Ok(l1) && LoadClassPart(cp2) == Ok(l2)
    ensures LoadClass(ClassNode(Node([cp1, cp2]), close)) == Ok(Or([l1, l2]))
  {
    ClassOfTwoNodes(cp1, cp2, close);
    ClassOfTwoParts(ClassNode(Node([cp1, cp2]), close), cp1, cp2, l1, l2);
  }

  /** The tree of a regex that is one class loads as that class. */
  lemma {:induction false} ClassRegexLoads(cls: Result<Token>)
    requires cls.ruleName == Some("class")
    ensures LoadAnd(Root(RuleOfOperand(cls))) == LoadClass(cls)
  {
    TopRuleLoads(RuleOfOperand(cls));
    SelectsBelow(cls);
  }

  /** '[ab]' loads as Or([Literal('a'), Literal('b')]). */
  lemma LoadsClassOfLiterals()
    ensures LoadAnd(Root(RuleOfOperand(ClassNode(Node([Named("class_part", [CharLit("a", 1)]), Named("class_part", [CharLit("b", 2)])]), 3))))
      == Ok(Or([HeadRule(Literal('a')), HeadRule(Literal('b'))]))
  {
    var cpA := Named("class_part", [CharLit("a", 1)]);
    var cpB := Named("class_part", [CharLit("b", 2)]);
    ClassRegexLoads(ClassNode(Node([cpA, cpB]), 3));
    LiteralPartLoads('a', 1);
    LiteralPartLoads('b', 2);
    ClassOfTwoLoads(cpA, cpB, 3, HeadRule(Literal('a')), HeadRule(Literal('b')));
  }

  /** '[a-z]' loads as Range('a', 'z'). */
  lemma LoadsRange()
    ensures LoadAnd(Root(RuleOfOperand(ClassNode(AsChild(RangePart("a", "z", 1)), 4))))
      == Ok(HeadRule(Range('a', 'z')))
  {
    ClassRegexLoads(ClassNode(AsChild(RangePart("a", "z", 1)), 4));
    RangePartLoads('a', 'z', 1);
    ClassOfOneLoads(RangePart("a", "z", 1), 4, HeadRule(Range('a', 'z')));
  }

  /** '[a-zA-Z]' loads as Or([Range('a', 'z'), Range('A', 'Z')]). */
  lemma LoadsClassOfRanges()
    ensures LoadAnd(Root(RuleOfOperand(ClassNode(Node([RangePart("a", "z", 1), RangePart("A", "Z", 4)]), 7))))
      == Ok(Or([HeadRule(Range('a', 'z')), HeadRule(Range('A', 'Z'))]))
  {
    ClassRegexLoads(ClassNode(Node([RangePart("a", "z", 1), RangePart("A", "Z", 4)]), 7));
    RangePartLoads('a', 'z', 1);
    RangePartLoads('A', 'Z', 4);
    ClassOfTwoLoads(RangePart("a", "z", 1), RangePart("A", "Z", 4), 7, HeadRule(Range('a', 'z')), HeadRule(Range('A', 'Z')));
  }

  /** 'a*' loads as ZeroOrMore(Literal('a')). */
  lemma LoadsZeroOrMore()
    ensures LoadAnd(Postfix("zero_or_more", "*")) == Ok(ZeroOrMore(HeadRule(Literal('a'))))
  {
    PostfixLoads("zero_or_more", "*");
  }

  /** 'a+' loads as OneOrMore(Literal('a')). */
  lemma LoadsOneOrMore()
    ensures LoadAnd(Postfix("one_or_more", "+")) == Ok(OneOrMore(HeadRule(Literal('a'))))
  {
    PostfixLoads("one_or_more", "+");
  }

  /** 'a?' loads as ZeroOrOne(Literal('a')). */
  lemma LoadsZeroOrOne()
    ensures LoadAnd(Postfix("zero_or_one", "?")) == Ok(ZeroOrOne(HeadRule(Literal('a'))))
  {
    PostfixLoads("zero_or_one", "?");
  }

  /** 'a!' loads as UntilEmpty(Literal('a')). */
  lemma LoadsUntilEmpty()
    ensures LoadAnd(Postfix("until_empty", "!")) == Ok(StreamProcessor.UntilEmpty(HeadRule(Literal('a'))))
  {
    PostfixLoads("until_empty", "!");
  }

  /** '^a' loads as Not(Literal('a')). */
  lemma LoadsNot()
    ensures LoadAnd(Root(RuleOfOperation(Named("not", [Op("^", 0), Operand(CharLit("a", 1))])))) == Ok(Not(HeadRule(Literal('a'))))
  {
    var operand := Operand(CharLit("a", 1));
    var node := Named("not", [Op("^", 0), operand]);
    var cond := RuleNameIs("operand");
    MatchesTwo(Op("^", 0), operand, cond);
    OpMatchesNothing("^", 0, cond);
    assert Matches(node, cond) == [operand];
    OperandLoads('a', 1);
    TopRuleLoads(RuleOfOperation(node));
    SelectsBelow(node);
  }
}
