/** The lexer of core/lexer.py: positions, characters, the character-level leaf rules, the
    processor a lexer builds from its ordered rules, and the conversion of its result to tokens. */
module Lexer {
  import opened Results
  import opened Processor
  import StreamProcessor

  /** Position: a line and a column, both counted from 0. */
  datatype Position = Position(line: int, column: int)

  /** One step of Position.__add__: a newline starts the next line, any other character
      moves one column right. */
  function Advance(p: Position, c: char): Position {
    if c == '\n' then Position(p.line + 1, 0) else Position(p.line, p.column + 1)
  }

  /** Position.__add__, as a left fold of Advance over the text. */
  function After(p: Position, s: string): Position
    decreases |s|
  {
    if s == [] then p else After(Advance(p, s[0]), s[1..])
  }

  /** Position.__add__: the loop over the characters updating line and column. */
  method Add(p: Position, s: string) returns (q: Position)
    ensures q == After(p, s)
  {
    var line := p.line;
    var column := p.column;
    for i := 0 to |s|
      invariant After(p, s) == After(Position(line, column), s[i..])
    {
      assert s[i..][0] == s[i] && s[i..][1..] == s[i + 1..];
      if s[i] == '\n' {
        line := line + 1;
        column := 0;
      } else {
        column := column + 1;
      }
    }
    q := Position(line, column);
  }

  /** Adding two texts one after the other is adding their concatenation. */
  lemma {:induction false} AfterAppend(p: Position, s: string, t: string)
    ensures After(After(p, s), t) == After(p, s + t)
    decreases |s|
  {
    if s == [] {
      assert s + t == t;
    } else {
      assert (s + t)[0] == s[0] && (s + t)[1..] == s[1..] + t;
      AfterAppend(Advance(p, s[0]), s[1..], t);
    }
  }

  /** The number of newlines in a text. */
  function Newlines(s: string): nat {
    if s == [] then 0 else (if s[0] == '\n' then 1 else 0) + Newlines(s[1..])
  }

  /** Adding a text moves down one line per newline in it; a text without newlines moves
      right by its length. */
  lemma {:induction false} AfterCountsLines(p: Position, s: string)
    ensures After(p, s).line == p.line + Newlines(s)
    ensures Newlines(s) == 0 ==> After(p, s).column == p.column + |s|
    decreases |s|
  {
    if s != [] {
      AfterCountsLines(Advance(p, s[0]), s[1..]);
    }
  }

  /** After a newline the column counts the characters since that newline. */
  lemma AfterNewline(p: Position, s: string, t: string)
    requires Newlines(t) == 0
    ensures After(p, s + "\n" + t) == Position(After(p, s).line + 1, |t|)
  {
    AfterAppend(p, s, "\n" + t);
    assert ("\n" + t)[0] == '\n' && ("\n" + t)[1..] == t;
    AfterCountsLines(Position(After(p, s).line + 1, 0), t);
    assert s + "\n" + t == s + ("\n" + t);
  }

  /** Position(0, 0) + "ab\ncd" is line 1, column 2. */
  lemma PositionExample()
    ensures After(Position(0, 0), "ab\ncd") == Position(1, 2)
  {
    assert "ab\ncd" == "ab" + "\n" + "cd";
    AfterNewline(Position(0, 0), "ab", "cd");
    AfterCountsLines(Position(0, 0), "ab");
  }

  /** Char: one character of the input and where it stands. */
  datatype Char = Char(value: char, position: Position)

  /** Char.__post_init__: a Char holds exactly one character. */
  function NewChar(value: string, position: Position): (o: Either<Char, Error<seq<Char>>>)
    ensures o.Ok? <==> |value| == 1
    ensures o.Ok? ==> o.value == Char(value[0], position)
  {
    if |value| != 1 then Err(Fault("invalid ResultValue value ")) else Ok(Char(value[0], position))
  }

  /** Token: a rule name, the text it matched and where that text starts. */
  datatype Token = Token(ruleName: string, value: string, position: Position)

  /** The character-level leaf rules. */
  datatype LexLeaf = Class(values: set<char>) | Literal(value: char) | Any | Range(min: char, max: char)

  type LexRule = Rule<LexLeaf>

  /** Literal.__post_init__: a literal is exactly one character. */
  function NewLiteral(value: string): (o: Either<LexLeaf, Error<seq<Char>>>)
    ensures o.Ok? <==> |value| == 1
    ensures o.Ok? ==> o.value == Literal(value[0])
  {
    if |value| != 1 then Err(Fault("invalid literal value ")) else Ok(Literal(value[0]))
  }

  /** Range.__post_init__: both bounds are single characters and the lower is strictly below the upper. */
  function NewRange(min: string, max: string): (o: Either<LexLeaf, Error<seq<Char>>>)
    ensures o.Ok? <==> |min| == 1 && |max| == 1 && min[0] < max[0]
    ensures o.Ok? ==> o.value == Range(min[0], max[0])
  {
    if |min| != 1 then Err(Fault("invalid min value "))
    else if |max| != 1 then Err(Fault("invalid max value "))
    else if min[0] >= max[0] then Err(Fault("invalid range "))
    else Ok(Range(min[0], max[0]))
  }

  /** The characters of Python's string.whitespace. */
  const Whitespace: set<char> := {' ', '\t', '\n', '\r', '\U{000B}', '\U{000C}'}

  /** Class.whitespace */
  function WhitespaceClass(): LexLeaf {
    Class(Whitespace)
  }

  /** The pred of each leaf rule, on the character at the head of the stream. */
  predicate LexPred(l: LexLeaf, c: char) {
    match l
    case Class(values) => c in values
    case Literal(value) => c == value
    case Any => true
    case Range(min, max) => min <= c <= max
  }

  /** The lexer's leaf rules are head rules giving the matched Char as a leaf; Not steps over
      the head Char; the While of a lexer is UntilEmpty. */
  function LexSem(): Sem<LexLeaf, Char, seq<Char>> {
    Sem((l: LexLeaf, s: seq<Char>) => StreamProcessor.HeadApply((h: Char) => LexPred(l, h.value), (h: Char) => Leaf(h), s),
        StreamProcessor.NonEmpty, StreamProcessor.Step)
  }

  /** A leaf rule matches exactly when the stream is not empty and its pred accepts the head
      character; it then gives that Char as a leaf and consumes it. */
  lemma LeafMatches(p: Processor<LexLeaf>, l: LexLeaf, s: seq<Char>, fuel: nat)
    ensures Apply(LexSem(), p, HeadRule(l), s, fuel).Matched? <==> |s| > 0 && LexPred(l, s[0].value)
    ensures Apply(LexSem(), p, HeadRule(l), s, fuel).Matched? ==>
      Apply(LexSem(), p, HeadRule(l), s, fuel) == Matched(Leaf(s[0]), s[1..])
  {
  }

  /** Not succeeds, consuming exactly the head, when its child fails on a non-empty stream;
      it fails at the state when its child succeeds; it never succeeds on an empty stream. */
  lemma NotNegates(p: Processor<LexLeaf>, c: LexRule, s: seq<Char>, fuel: nat)
    ensures Apply(LexSem(), p, c, s, fuel).Failed? && |s| > 0 ==>
      Apply(LexSem(), p, Not(c), s, fuel) == Matched(Leaf(s[0]), s[1..])
    ensures Apply(LexSem(), p, c, s, fuel).Matched? ==>
      Apply(LexSem(), p, Not(c), s, fuel).Failed? && Apply(LexSem(), p, Not(c), s, fuel).error.at == Some(s)
    ensures |s| == 0 ==> !Apply(LexSem(), p, Not(c), s, fuel).Matched?
  {
  }

  /** Every lexer rule gives, as its values, exactly the characters it consumed. */
  lemma LexSemConserves()
    ensures StreamProcessor.Conserving(LexSem())
  {
    var sem := LexSem();
    forall l: LexLeaf, s: seq<Char>
      ensures sem.leaf(l, s).Matched? ==> StreamProcessor.Consumed(sem.leaf(l, s), s)
    {
      StreamProcessor.LeafHeadConserves((h: Char) => LexPred(l, h.value), s);
    }
    forall s: seq<Char>
      ensures sem.step(s).Matched? ==> StreamProcessor.Consumed(sem.step(s), s)
    {
      StreamProcessor.StepConserves(s);
    }
  }

  const InternalPrefix: string := "_lexer_"
  const RootName: string := InternalPrefix + "root"
  const TokenName: string := InternalPrefix + "token"
  const ExcludePrefix: string := "_"

  /** An OrderedDict of rules: the names in insertion order, and the rule of each name. */
  datatype OrderedMap<T> = OrderedMap(keys: seq<string>, entries: map<string, T>)

  predicate ValidMap<T>(m: OrderedMap<T>) {
    (forall i, j :: 0 <= i < j < |m.keys| ==> m.keys[i] != m.keys[j]) &&
    m.entries.Keys == set k | k in m.keys
  }

  /** `d[k] = v` on an OrderedDict: a new name goes last, an existing one keeps its place and
      gets the new rule. */
  function Put<T>(m: OrderedMap<T>, k: string, v: T): (r: OrderedMap<T>)
    ensures ValidMap(m) ==> ValidMap(r)
    ensures r.entries == m.entries[k := v]
    ensures k in m.entries ==> r.keys == m.keys
    ensures k !in m.entries ==> r.keys == m.keys + [k]
  {
    if k in m.entries then OrderedMap(m.keys, m.entries[k := v]) else OrderedMap(m.keys + [k], m.entries[k := v])
  }

  /** `[Ref(name) for name in names]` */
  function Refs(names: seq<string>): (rs: seq<LexRule>)
    ensures |rs| == |names|
  {
    seq(|names|, i requires 0 <= i < |names| => Ref(names[i]))
  }

  /** Lexer.__init__: the root rule is UntilEmpty over the token rule, the token rule is an Or
      of references to the given rules in declaration order, and the given rules come last, so
      that a given rule with an internal name replaces the internal one. */
  function LexerProcessor(rules: OrderedMap<LexRule>): (p: Processor<LexLeaf>)
    ensures p.root == RootName
    ensures p.rules.Keys == rules.entries.Keys + {RootName, TokenName}
    ensures forall k :: k in rules.entries ==> p.rules[k] == rules.entries[k]
    ensures RootName !in rules.entries ==> p.rules[RootName] == StreamProcessor.UntilEmpty(Ref(TokenName))
    ensures TokenName !in rules.entries ==> p.rules[TokenName] == Or(Refs(rules.keys))
  {
    Processor(RootName,
      map[RootName := StreamProcessor.UntilEmpty(Ref(TokenName)), TokenName := Or(Refs(rules.keys))] + rules.entries)
  }

  /** Lexer.lexer_rules: the rules whose names do not start with the internal prefix. */
  function LexerRules(p: Processor<LexLeaf>): (m: map<string, LexRule>)
    ensures forall k :: k in m ==> k in p.rules && !(InternalPrefix <= k) && m[k] == p.rules[k]
    ensures forall k :: k in p.rules && !(InternalPrefix <= k) ==> k in m
  {
    map k | k in p.rules && !(InternalPrefix <= k) :: p.rules[k]
  }

  /** A lexer gives back exactly the rules it was built from, when none of their names is
      internal. */
  lemma LexerRulesRoundTrip(rules: OrderedMap<LexRule>)
    requires forall k :: k in rules.entries ==> !(InternalPrefix <= k)
    ensures LexerRules(LexerProcessor(rules)) == rules.entries
  {
    assert InternalPrefix <= RootName && InternalPrefix <= TokenName;
  }

  /** The token rule tries the rules in declaration order and keeps the first that matches,
      not the longest: its result holds that rule's result as its only child. */
  lemma FirstDeclaredWins(rules: OrderedMap<LexRule>, i: nat, s: seq<Char>, fuel: nat)
    requires TokenName !in rules.entries
    requires i < |rules.keys|
    requires forall j :: 0 <= j < i ==> ApplyName(LexSem(), LexerProcessor(rules), rules.keys[j], s, fuel).Failed?
    requires ApplyName(LexSem(), LexerProcessor(rules), rules.keys[i], s, fuel).Matched?
    ensures ApplyName(LexSem(), LexerProcessor(rules), TokenName, s, fuel + 1)
      == Matched(Result(None, Some(TokenName), [ApplyName(LexSem(), LexerProcessor(rules), rules.keys[i], s, fuel).result]),
                 ApplyName(LexSem(), LexerProcessor(rules), rules.keys[i], s, fuel).state)
  {
    var p := LexerProcessor(rules);
    var cs := Refs(rules.keys);
    var o := ApplyName(LexSem(), p, rules.keys[i], s, fuel);
    forall j | 0 <= j < i
      ensures Apply(LexSem(), p, cs[j], s, fuel).Failed?
    {
      assert cs[j] == Ref(rules.keys[j]);
    }
    assert cs[i] == Ref(rules.keys[i]);
    OrPicksFirst(LexSem(), p, cs, i, s, fuel);
    var x := o.result;
    var w := AsChild(AsChild(x));
    assert Apply(LexSem(), p, Or(cs), s, fuel) == Matched(w, o.state);
    assert !Empty(AsChild(x)) by {
      assert x.ruleName.Some?;
      assert AsChild(x).children[0] == x;
    }
    assert SimplifyAll([AsChild(x)]) == [x] by {
      assert [AsChild(x)][1..] == [];
    }
    assert Simplify(WithRuleName(w, TokenName)) == Result(None, Some(TokenName), [x]);
  }

  /** When the root rule is the lexer's own, a successful run consumes the whole input, and
      the values of its result are the input's characters, in order. */
  lemma LexRootConsumesInput(rules: OrderedMap<LexRule>, input: string, fuel: nat)
    requires RootName !in rules.entries
    ensures ApplyRoot(LexSem(), LexerProcessor(rules), CharsOf(input), fuel).Matched? ==>
      ApplyRoot(LexSem(), LexerProcessor(rules), CharsOf(input), fuel).state == [] &&
      TopValues(ApplyRoot(LexSem(), LexerProcessor(rules), CharsOf(input), fuel).result) == CharsOf(input)
  {
    var p := LexerProcessor(rules);
    var o := ApplyRoot(LexSem(), p, CharsOf(input), fuel);
    LexSemConserves();
    StreamProcessor.ApplyNameConserves(LexSem(), p, RootName, CharsOf(input), fuel);
    if o.Matched? {
      var w := Apply(LexSem(), p, p.rules[RootName], CharsOf(input), fuel - 1);
      assert w == WhileFrom(LexSem(), p, Ref(TokenName), CharsOf(input), fuel - 1);
      assert o.state == w.state;
      assert !StreamProcessor.NonEmpty(w.state);
    }
  }

  /** Lexer._convert_input: one Char per input character, in order, each at the position
      of the text before it. */
  function CharsOf(input: string): seq<Char> {
    seq(|input|, i requires 0 <= i < |input| => Char(input[i], After(Position(0, 0), input[..i])))
  }

  /** The characters of the input keep their values and order; the first is at line 0,
      column 0, and each next one is one Advance from the one before. */
  lemma CharPositions(input: string)
    ensures |CharsOf(input)| == |input|
    ensures forall i :: 0 <= i < |input| ==> CharsOf(input)[i].value == input[i]
    ensures |input| > 0 ==> CharsOf(input)[0].position == Position(0, 0)
    ensures forall i :: 0 <= i < |input| - 1 ==>
      CharsOf(input)[i + 1].position == Advance(CharsOf(input)[i].position, input[i])
  {
    forall i | 0 <= i < |input| - 1
      ensures CharsOf(input)[i + 1].position == Advance(CharsOf(input)[i].position, input[i])
    {
      assert input[..i + 1] == input[..i] + [input[i]];
      AfterAppend(Position(0, 0), input[..i], [input[i]]);
      assert [input[i]][1..] == [];
    }
  }

  /** Lexer._convert_input: the loop that advances the position character by character. */
  method ConvertInput(input: string) returns (chars: seq<Char>)
    ensures chars == CharsOf(input)
  {
    chars := [];
    var position := Position(0, 0);
    for i := 0 to |input|
      invariant |chars| == i
      invariant forall j :: 0 <= j < i ==> chars[j] == CharsOf(input)[j]
      invariant position == After(Position(0, 0), input[..i])
    {
      chars := chars + [Char(input[i], position)];
      assert input[..i + 1] == input[..i] + [input[i]];
      AfterAppend(Position(0, 0), input[..i], [input[i]]);
      position := Add(position, [input[i]]);
    }
  }

  /** What a lexer run gives: tokens, a raised Error, or an abort (a failed `assert` in the
      conversion, or a run that does not finish). */
  datatype LexOutcome = Lexed(tokens: seq<Token>) | LexFailed(error: Error<seq<Char>>) | Aborted(reason: string)

  /** The text of a list of Chars. */
  function Text(chars: seq<Char>): (s: string)
    ensures |s| == |chars|
    ensures forall i :: 0 <= i < |chars| ==> s[i] == chars[i].value
  {
    seq(|chars|, i requires 0 <= i < |chars| => chars[i].value)
  }

  /** The text of the Chars of an input, or of any slice of them, is that slice of the input. */
  lemma TextOfChars(input: string, k: nat, n: nat)
    requires k + n <= |input|
    ensures Text(CharsOf(input)[k..k + n]) == input[k..k + n]
    ensures Text(CharsOf(input)) == input
  {
  }

  /** One step of Lexer._convert_result: the single named node below the token result, the
      text of its characters, and a token unless the name is excluded. Both asserts of the
      step, a non-empty rule name and a non-empty text, abort the conversion when they fail. */
  function TokenOf(tokenResult: Result<Char>): (o: LexOutcome)
    ensures |Matches(Skip(tokenResult), HasRuleName)| != 1 ==> o.LexFailed?
    ensures WhereOne<Char, seq<Char>>(Skip(tokenResult), HasRuleName).Ok? ==>
      var ruleResult := WhereOne<Char, seq<Char>>(Skip(tokenResult), HasRuleName).value;
      var chars := TopValues(ruleResult);
      (o.Lexed? <==> ruleResult.ruleName.value != "" && |chars| > 0) &&
      (o.Lexed? && ExcludePrefix <= ruleResult.ruleName.value ==> o.tokens == []) &&
      (o.Lexed? && !(ExcludePrefix <= ruleResult.ruleName.value) ==>
        o.tokens == [Token(ruleResult.ruleName.value, Text(chars), chars[0].position)])
    ensures o.Lexed? ==> |o.tokens| <= 1
    ensures o.Lexed? ==> forall t :: t in o.tokens ==> !(ExcludePrefix <= t.ruleName) && |t.value| > 0
  {
    match WhereOne<Char, seq<Char>>(Skip(tokenResult), HasRuleName)
    case Err(e) => LexFailed(e)
    case Ok(ruleResult) =>
      AllValuesAreTopValues(ruleResult);
      var chars := AllValues(ruleResult);
      var value := Text(chars);
      if ruleResult.ruleName.value == "" then Aborted("assertion failed")
      else if |value| == 0 then Aborted("assertion failed")
      else if ExcludePrefix <= ruleResult.ruleName.value then Lexed([])
      else Lexed([Token(ruleResult.ruleName.value, value, chars[0].position)])
  }

  /** Two conversion steps in sequence: the first failure wins, otherwise the tokens are concatenated. */
  function Then(a: LexOutcome, b: LexOutcome): LexOutcome {
    if !a.Lexed? then a
    else if !b.Lexed? then b
    else Lexed(a.tokens + b.tokens)
  }

  /** Lexer._convert_result over the token results, in order. */
  function TokensOf(tokenResults: seq<Result<Char>>): (o: LexOutcome)
    ensures o.Lexed? <==> forall j :: 0 <= j < |tokenResults| ==> TokenOf(tokenResults[j]).Lexed?
    ensures o.Lexed? ==> |o.tokens| <= |tokenResults|
    ensures o.Lexed? ==> forall t :: t in o.tokens ==> !(ExcludePrefix <= t.ruleName) && |t.value| > 0
  {
    if tokenResults == [] then Lexed([])
    else
      assert forall j :: 1 <= j < |tokenResults| ==> tokenResults[j] == tokenResults[1..][j - 1];
      Then(TokenOf(tokenResults[0]), TokensOf(tokenResults[1..]))
  }

  /** Converting a list of token results in two parts and joining the outcomes is converting it whole. */
  lemma {:induction false} TokensOfAppend(a: seq<Result<Char>>, b: seq<Result<Char>>)
    ensures TokensOf(a + b) == Then(TokensOf(a), TokensOf(b))
    decreases |a|
  {
    if a == [] {
      assert a + b == b;
      if TokensOf(b).Lexed? {
        assert [] + TokensOf(b).tokens == TokensOf(b).tokens;
      }
    } else {
      assert (a + b)[0] == a[0] && (a + b)[1..] == a[1..] + b;
      TokensOfAppend(a[1..], b);
      ThenAssoc(TokenOf(a[0]), TokensOf(a[1..]), TokensOf(b));
    }
  }

  /** A conversion that does not give tokens stops at the first token result whose step
      does not, and gives what that step gives. */
  lemma {:induction false} TokensOfFirstFailure(tokenResults: seq<Result<Char>>)
    requires !TokensOf(tokenResults).Lexed?
    ensures exists j :: (0 <= j < |tokenResults| && TokensOf(tokenResults) == TokenOf(tokenResults[j]) &&
                         forall k :: 0 <= k < j ==> TokenOf(tokenResults[k]).Lexed?)
    decreases |tokenResults|
  {
    var rest := tokenResults[1..];
    if TokenOf(tokenResults[0]).Lexed? {
      assert TokensOf(tokenResults) == TokensOf(rest);
      TokensOfFirstFailure(rest);
      var j :| 0 <= j < |rest| && TokensOf(rest) == TokenOf(rest[j])
        && forall k :: 0 <= k < j ==> TokenOf(rest[k]).Lexed?;
      assert rest[j] == tokenResults[j + 1];
      forall k | 0 <= k < j + 1
        ensures TokenOf(tokenResults[k]).Lexed?
      {
        if k > 0 {
          assert tokenResults[k] == rest[k - 1];
        }
      }
      assert TokensOf(tokenResults) == TokenOf(tokenResults[j + 1]);
    } else {
      assert TokensOf(tokenResults) == TokenOf(tokenResults[0]);
    }
  }

  lemma ThenAssoc(a: LexOutcome, b: LexOutcome, c: LexOutcome)
    ensures Then(Then(a, b), c) == Then(a, Then(b, c))
  {
    if a.Lexed? && b.Lexed? && c.Lexed? {
      assert (a.tokens + b.tokens) + c.tokens == a.tokens + (b.tokens + c.tokens);
    }
  }

  /** Lexer._convert_result: the loop over the token results appending tokens. */
  method ConvertResult(result: Result<Char>) returns (o: LexOutcome)
    ensures o == TokensOf(Where(result, RuleNameIs(TokenName)).children)
  {
    var tokenResults := Where(result, RuleNameIs(TokenName)).children;
    var tokens: seq<Token> := [];
    assert Then(Lexed([]), TokensOf(tokenResults)) == TokensOf(tokenResults) by {
      if TokensOf(tokenResults).Lexed? {
        assert [] + TokensOf(tokenResults).tokens == TokensOf(tokenResults).tokens;
      }
    }
    for i := 0 to |tokenResults|
      invariant TokensOf(tokenResults) == Then(Lexed(tokens), TokensOf(tokenResults[i..]))
    {
      assert tokenResults[i..][0] == tokenResults[i] && tokenResults[i..][1..] == tokenResults[i + 1..];
      var step := TokenOf(tokenResults[i]);
      ThenAssoc(Lexed(tokens), step, TokensOf(tokenResults[i + 1..]));
      if !step.Lexed? {
        return step;
      }
      tokens := tokens + step.tokens;
    }
    assert tokens + [] == tokens;
    o := Lexed(tokens);
  }

  /** Lexer.apply: the root rule on the input's characters, then the conversion to tokens. */
  function Lex(rules: OrderedMap<LexRule>, input: string, fuel: nat): (o: LexOutcome)
    ensures o.Lexed? ==> ApplyRoot(LexSem(), LexerProcessor(rules), CharsOf(input), fuel).Matched?
    ensures ApplyRoot(LexSem(), LexerProcessor(rules), CharsOf(input), fuel).Matched? ==>
      o == TokensOf(TokenResults(rules, input, fuel))
    ensures ApplyRoot(LexSem(), LexerProcessor(rules), CharsOf(input), fuel).Failed? ==>
      o == LexFailed(ApplyRoot(LexSem(), LexerProcessor(rules), CharsOf(input), fuel).error)
    ensures o.Lexed? ==> forall t :: t in o.tokens ==> !(ExcludePrefix <= t.ruleName) && |t.value| > 0
  {
    match ApplyRoot(LexSem(), LexerProcessor(rules), CharsOf(input), fuel)
    case Matched(r, _) => TokensOf(Where(r, RuleNameIs(TokenName)).children)
    case Failed(e) => LexFailed(e)
    case OutOfFuel => Aborted("out of fuel")
  }

  /** Lexer.apply */
  method ApplyLexer(rules: OrderedMap<LexRule>, input: string, fuel: nat) returns (o: LexOutcome)
    ensures o == Lex(rules, input, fuel)
  {
    var chars := ConvertInput(input);
    match ApplyRoot(LexSem(), LexerProcessor(rules), chars, fuel)
    case Matched(r, _) =>
      o := ConvertResult(r);
    case Failed(e) =>
      o := LexFailed(e);
    case OutOfFuel =>
      o := Aborted("out of fuel");
  }

  /** A token result as the lexer's token rule builds it: tagged with the token rule's name,
      without a value, and holding the named result of the rule that matched as its only child. */
  predicate TokenShaped(r: Result<Char>) {
    r.ruleName == Some(TokenName) && r.value.None? && |r.children| == 1 && r.children[0].ruleName.Some?
  }

  /** A result whose values all lie below token results: every node above them has no value. */
  predicate Segmented(r: Result<Char>) {
    if r.ruleName == Some(TokenName) then TokenShaped(r)
    else r.value.None? && forall i :: 0 <= i < |r.children| ==> Segmented(r.children[i])
  }

  /** In a segmented result the token results hold every value, in order, and each is shaped
      as the token rule builds it. */
  lemma {:induction false} SegmentedMatches(r: Result<Char>)
    requires Segmented(r)
    ensures TopValuesAll(Matches(r, RuleNameIs(TokenName))) == TopValues(r)
    ensures forall m :: m in Matches(r, RuleNameIs(TokenName)) ==> TokenShaped(m)
  {
    if r.ruleName == Some(TokenName) {
      assert Matches(r, RuleNameIs(TokenName)) == [r];
      assert [r][1..] == [];
    } else {
      assert Matches(r, RuleNameIs(TokenName)) == MatchesAll(r.children, RuleNameIs(TokenName));
      SegmentedMatchesAll(r.children);
    }
  }

  lemma {:induction false} SegmentedMatchesAll(cs: seq<Result<Char>>)
    requires forall i :: 0 <= i < |cs| ==> Segmented(cs[i])
    ensures TopValuesAll(MatchesAll(cs, RuleNameIs(TokenName))) == TopValuesAll(cs)
    ensures forall m :: m in MatchesAll(cs, RuleNameIs(TokenName)) ==> TokenShaped(m)
    decreases cs
  {
    if cs != [] {
      SegmentedMatches(cs[0]);
      SegmentedMatchesAll(cs[1..]);
      TopValuesAllAppend(Matches(cs[0], RuleNameIs(TokenName)), MatchesAll(cs[1..], RuleNameIs(TokenName)));
    }
  }

  /** simplify keeps a result segmented. */
  lemma {:induction false} SimplifyKeepsSegmented(r: Result<Char>)
    requires Segmented(r)
    ensures Segmented(Simplify(r))
  {
    if r.ruleName == Some(TokenName) {
      assert !Empty(r.children[0]);
      assert SimplifyAll(r.children) == [Simplify(r.children[0])] + SimplifyAll(r.children[1..]);
      assert r.children[1..] == [];
    } else if !Collapsible(r) {
      SimplifyAllKeepsSegmented(r.children);
    }
  }

  lemma {:induction false} SimplifyAllKeepsSegmented(cs: seq<Result<Char>>)
    requires forall i :: 0 <= i < |cs| ==> Segmented(cs[i])
    ensures forall i :: 0 <= i < |SimplifyAll(cs)| ==> Segmented(SimplifyAll(cs)[i])
    decreases cs
  {
    if cs != [] {
      var head := if Empty(cs[0]) then [] else [Simplify(cs[0])];
      assert SimplifyAll(cs) == head + SimplifyAll(cs[1..]);
      if !Empty(cs[0]) {
        SimplifyKeepsSegmented(cs[0]);
      }
      SimplifyAllKeepsSegmented(cs[1..]);
    }
  }

  /** The token rule, an Or over references, nests the named result of the branch that
      matched twice. */
  lemma {:induction false} OrOfRefsNests(p: Processor<LexLeaf>, cs: seq<LexRule>, s: seq<Char>, fuel: nat)
    requires forall i :: 0 <= i < |cs| ==> cs[i].Ref?
    ensures OrFrom(LexSem(), p, cs, s, fuel).Matched? ==>
      var r := OrFrom(LexSem(), p, cs, s, fuel).result;
      r.value.None? && r.ruleName.None? && |r.children| == 1 &&
      r.children[0].value.None? && r.children[0].ruleName.None? && |r.children[0].children| == 1 &&
      r.children[0].children[0].ruleName.Some?
    decreases |cs|
  {
    if cs != [] {
      RefNests(LexSem(), p, cs[0].name, s, fuel);
      if Apply(LexSem(), p, cs[0], s, fuel).Failed? {
        assert forall i :: 0 <= i < |cs[1..]| ==> cs[1..][i] == cs[i + 1];
        OrOfRefsNests(p, cs[1..], s, fuel);
      }
    }
  }

  /** With the lexer's own token rule, every result of the token rule is token shaped. */
  lemma TokenRuleShape(rules: OrderedMap<LexRule>, s: seq<Char>, fuel: nat)
    requires TokenName !in rules.entries
    ensures ApplyName(LexSem(), LexerProcessor(rules), TokenName, s, fuel).Matched? ==>
      TokenShaped(ApplyName(LexSem(), LexerProcessor(rules), TokenName, s, fuel).result)
  {
    var p := LexerProcessor(rules);
    var o := ApplyName(LexSem(), p, TokenName, s, fuel);
    if o.Matched? {
      var cs := Refs(rules.keys);
      assert p.rules[TokenName] == Or(cs);
      NamedMatch(LexSem(), p, TokenName, s, fuel);
      assert Apply(LexSem(), p, Or(cs), s, fuel - 1) == OrFrom(LexSem(), p, cs, s, fuel - 1);
      OrOfRefsNests(p, cs, s, fuel - 1);
      var w := OrFrom(LexSem(), p, cs, s, fuel - 1).result;
      var x := w.children[0].children[0];
      assert o.result == Simplify(WithRuleName(w, TokenName));
      assert !Empty(w.children[0]) by {
        assert w.children[0].children[0] == x;
      }
      assert SimplifyAll(w.children) == [Simplify(w.children[0])] + SimplifyAll(w.children[1..]);
      assert w.children[1..] == [];
      assert Simplify(w.children[0]) == x;
    }
  }

  /** The root loop over the token rule gives a segmented result. */
  lemma {:induction false} TokenLoopSegmented(rules: OrderedMap<LexRule>, s: seq<Char>, fuel: nat)
    requires TokenName !in rules.entries
    ensures WhileFrom(LexSem(), LexerProcessor(rules), Ref(TokenName), s, fuel).Matched? ==>
      Segmented(WhileFrom(LexSem(), LexerProcessor(rules), Ref(TokenName), s, fuel).result)
    decreases fuel
  {
    var p := LexerProcessor(rules);
    var o := WhileFrom(LexSem(), p, Ref(TokenName), s, fuel);
    if o.Matched? && StreamProcessor.NonEmpty(s) {
      var tr := ApplyName(LexSem(), p, TokenName, s, fuel);
      assert Apply(LexSem(), p, Ref(TokenName), s, fuel) == Nest(tr);
      assert tr.Matched?;
      TokenRuleShape(rules, s, fuel);
      var rest := WhileFrom(LexSem(), p, Ref(TokenName), tr.state, fuel - 1);
      TokenLoopSegmented(rules, tr.state, fuel - 1);
      assert o.result == Node([AsChild(tr.result)] + rest.result.children);
      assert Segmented(AsChild(tr.result)) by {
        assert AsChild(tr.result).children[0] == tr.result;
      }
      forall i | 0 <= i < |o.result.children|
        ensures Segmented(o.result.children[i])
      {
        if i > 0 {
          assert o.result.children[i] == rest.result.children[i - 1];
        }
      }
    }
  }

  /** The token results of a successful run of the lexer's root rule. */
  function TokenResults(rules: OrderedMap<LexRule>, input: string, fuel: nat): seq<Result<Char>>
    requires ApplyRoot(LexSem(), LexerProcessor(rules), CharsOf(input), fuel).Matched?
  {
    Where(ApplyRoot(LexSem(), LexerProcessor(rules), CharsOf(input), fuel).result, RuleNameIs(TokenName)).children
  }

  /** With the lexer's own root and token rules, the token results of a successful run are
      token shaped and hold the whole input between them, in order, each exactly once. */
  lemma TokenResultsCoverInput(rules: OrderedMap<LexRule>, input: string, fuel: nat)
    requires RootName !in rules.entries && TokenName !in rules.entries
    requires ApplyRoot(LexSem(), LexerProcessor(rules), CharsOf(input), fuel).Matched?
    ensures TopValuesAll(TokenResults(rules, input, fuel)) == CharsOf(input)
    ensures forall j :: 0 <= j < |TokenResults(rules, input, fuel)| ==> TokenShaped(TokenResults(rules, input, fuel)[j])
  {
    var p := LexerProcessor(rules);
    var o := ApplyRoot(LexSem(), p, CharsOf(input), fuel);
    LexRootConsumesInput(rules, input, fuel);
    var w := WhileFrom(LexSem(), p, Ref(TokenName), CharsOf(input), fuel - 1);
    assert Apply(LexSem(), p, p.rules[RootName], CharsOf(input), fuel - 1) == w;
    TokenLoopSegmented(rules, CharsOf(input), fuel - 1);
    assert o.result == Simplify(WithRuleName(w.result, RootName));
    assert Segmented(WithRuleName(w.result, RootName)) by {
      assert RootName != TokenName by {
        assert RootName[|InternalPrefix|] == 'r' && TokenName[|InternalPrefix|] == 't';
      }
    }
    SimplifyKeepsSegmented(WithRuleName(w.result, RootName));
    WhereIsPreorder(o.result, RuleNameIs(TokenName));
    SegmentedMatches(o.result);
  }

  /** What a token result gives: the text it holds, under the name of the rule that matched,
      at the position of that text's first character. */
  lemma TokenShapedGives(tr: Result<Char>)
    requires TokenShaped(tr)
    ensures TokenOf(tr).Lexed? <==> tr.children[0].ruleName.value != "" && |TopValues(tr)| > 0
    ensures TokenOf(tr).Lexed? && !(ExcludePrefix <= tr.children[0].ruleName.value) ==>
      TokenOf(tr).tokens == [Token(tr.children[0].ruleName.value, Text(TopValues(tr)), TopValues(tr)[0].position)]
    ensures TokenOf(tr).Lexed? && ExcludePrefix <= tr.children[0].ruleName.value ==> TokenOf(tr).tokens == []
  {
    var x := tr.children[0];
    assert Skip(tr) == Node([x]);
    assert Matches(Skip(tr), HasRuleName) == [x] by {
      assert MatchesAll([x], HasRuleName) == Matches(x, HasRuleName) + MatchesAll([x][1..], HasRuleName);
      assert [x][1..] == [];
    }
    assert TopValues(tr) == TopValues(x) by {
      assert tr.children[1..] == [];
      assert TopValuesAll(tr.children) == TopValues(x) + TopValuesAll(tr.children[1..]);
    }
  }

  /** Lexer.apply, token by token: with the lexer's own root and token rules, a successful
      run splits the whole input among the token results, in order; the j-th token result,
      when it gives a token, gives the slice of the input it holds, starting at the position
      of the text before that slice. */
  lemma {:induction false} LexSplitsInput(rules: OrderedMap<LexRule>, input: string, fuel: nat, j: nat)
    requires RootName !in rules.entries && TokenName !in rules.entries
    requires ApplyRoot(LexSem(), LexerProcessor(rules), CharsOf(input), fuel).Matched?
    requires j < |TokenResults(rules, input, fuel)|
    ensures Text(TopValuesAll(TokenResults(rules, input, fuel))) == input
    ensures var trs := TokenResults(rules, input, fuel);
      var k := |TopValuesAll(trs[..j])|;
      var n := |TopValues(trs[j])|;
      k + n <= |input| &&
      (TokenOf(trs[j]).Lexed? && TokenOf(trs[j]).tokens != [] ==>
        TokenOf(trs[j]).tokens[0].value == input[k..k + n] &&
        TokenOf(trs[j]).tokens[0].position == After(Position(0, 0), input[..k]))
  {
    var trs := TokenResults(rules, input, fuel);
    TokenResultsCoverInput(rules, input, fuel);
    TextOfChars(input, 0, 0);
    var k := |TopValuesAll(trs[..j])|;
    var n := |TopValues(trs[j])|;
    TopValuesAt(trs, j);
    var chars := CharsOf(input);
    assert chars[k..k + n] == TopValues(trs[j]);
    TextOfChars(input, k, n);
    TokenShapedGives(trs[j]);
    if TokenOf(trs[j]).Lexed? && TokenOf(trs[j]).tokens != [] {
      assert TopValues(trs[j])[0] == chars[k];
    }
  }

  /** The token result of a one-character rule named `name` that matched c. */
  function CharToken(name: string, c: Char): Result<Char> {
    Result(None, Some(TokenName), [Result(Some(c), Some(name), [])])
  }

  /** A one-character token result gives that character as a token, unless its rule is excluded. */
  lemma CharTokenGives(name: string, c: Char)
    requires name != ""
    ensures ExcludePrefix <= name ==> TokenOf(CharToken(name, c)) == Lexed([])
    ensures !(ExcludePrefix <= name) ==> TokenOf(CharToken(name, c)) == Lexed([Token(name, [c.value], c.position)])
  {
    var t := CharToken(name, c);
    TokenShapedGives(t);
    assert TopValues(t) == [c] by {
      assert t.children[1..] == [];
      assert TopValuesAll(t.children) == TopValues(t.children[0]) + TopValuesAll(t.children[1..]);
    }
    assert Text([c]) == [c.value];
  }

  /** The token results of 'aga' under a rule `a` and an excluded rule `_g`, each matching
      its one letter. */
  function AgaTokenResults(): seq<Result<Char>> {
    [CharToken("a", Char('a', Position(0, 0))), CharToken("_g", Char('g', Position(0, 1))), CharToken("a", Char('a', Position(0, 2)))]
  }

  /** The root result of 'aga' lists its token results in order. */
  lemma AgaWhere()
    ensures Where(Result(None, Some(RootName), AgaTokenResults()), RuleNameIs(TokenName)).children == AgaTokenResults()
  {
    var cs := AgaTokenResults();
    var root := Result(None, Some(RootName), cs);
    assert RootName != TokenName by {
      assert RootName[|InternalPrefix|] == 'r' && TokenName[|InternalPrefix|] == 't';
    }
    WhereIsPreorder(root, RuleNameIs(TokenName));
    assert cs[1..] == [cs[1], cs[2]] && cs[1..][1..] == [cs[2]] && cs[1..][1..][1..] == [];
    assert MatchesAll(cs, RuleNameIs(TokenName)) == [cs[0]] + MatchesAll([cs[1], cs[2]], RuleNameIs(TokenName));
    assert MatchesAll([cs[1], cs[2]], RuleNameIs(TokenName)) == [cs[1]] + MatchesAll([cs[2]], RuleNameIs(TokenName));
    assert MatchesAll([cs[2]], RuleNameIs(TokenName)) == [cs[2]] + MatchesAll([], RuleNameIs(TokenName));
  }

  /** The token results of 'aga' give the two `a` tokens and drop the `g`. */
  lemma AgaTokens()
    ensures TokensOf(AgaTokenResults()) == Lexed([Token("a", "a", Position(0, 0)), Token("a", "a", Position(0, 2))])
  {
    var ts := AgaTokenResults();
    assert ExcludePrefix <= "_g";
    assert !(ExcludePrefix <= "a") by {
      assert ExcludePrefix[0] != "a"[0];
    }
    CharTokenGives("a", Char('a', Position(0, 0)));
    CharTokenGives("_g", Char('g', Position(0, 1)));
    CharTokenGives("a", Char('a', Position(0, 2)));
    assert ts[1..] == [ts[1], ts[2]] && ts[1..][1..] == [ts[2]] && ts[1..][1..][1..] == [];
    assert TokensOf([ts[2]]) == Lexed([Token("a", "a", Position(0, 2))]);
    assert TokensOf([ts[1], ts[2]]) == Lexed([Token("a", "a", Position(0, 2))]);
  }

  /** Converting the root result of 'aga' under a rule `a` and an excluded rule `_g`, each
      matching its one letter, gives the two `a` tokens at columns 0 and 2 and drops the `g`. */
  lemma AgaConverts()
    ensures var root := Result(None, Some(RootName),
        [CharToken("a", Char('a', Position(0, 0))), CharToken("_g", Char('g', Position(0, 1))), CharToken("a", Char('a', Position(0, 2)))]);
      TokensOf(Where(root, RuleNameIs(TokenName)).children)
        == Lexed([Token("a", "a", Position(0, 0)), Token("a", "a", Position(0, 2))])
  {
    AgaWhere();
    AgaTokens();
  }
}
