/** The bootstrap loader of core/loader.py: lexer rules compiled from a regex mini-language,
    and parsers compiled from a grammar language, both by running hand-written parsers and
    converting their result trees. */
module Loader {
  import opened Results
  import opened Processor
  import StreamProcessor
  import opened Lexer
  import opened Parser

  /** The loader's Error, raised over parser results. */
  type LoadError = Error<seq<Token>>

  /** What a loader run gives: the loaded value, a raised Error, or an abort (a run of one of
      its parsers that does not finish, or a failed `assert` in a lexer's conversion). */
  datatype Loaded<T> = Loaded(value: T) | LoadFailed(error: LoadError) | LoadAborted(reason: string)

  /** The condition of factory: the node's rule name is one of the loader keys. */
  function NameIn(keys: set<string>): Result<Token> -> bool {
    (c: Result<Token>) => c.ruleName.Some? && c.ruleName.value in keys
  }

  /** factory's selection: the one node strictly below r, found by skip().where_one, whose rule
      name is a loader key; zero or several such nodes are an Error. */
  function Select(keys: set<string>, r: Result<Token>): (o: Either<Result<Token>, LoadError>)
    ensures o.Ok? <==> |Matches(Skip(r), NameIn(keys))| == 1
    ensures o.Ok? ==> o.value == Matches(Skip(r), NameIn(keys))[0]
    ensures o.Ok? ==> o.value.ruleName.Some? && o.value.ruleName.value in keys && Size(o.value) < Size(r)
    ensures o.Err? ==> o.error.msg == Some("failed to find operand for factory with keys ") && |o.error.children| == 1
  {
    assert Size(Skip(r)) == Size(r);
    match WhereOne<Token, seq<Token>>(Skip(r), NameIn(keys))
    case Ok(v) => Ok(v)
    case Err(e) => Err(FaultWith("failed to find operand for factory with keys ", e))
  }

  /** get_token: the token of the one valued node of the subtree. */
  function GetToken(r: Result<Token>): (o: Either<Token, LoadError>)
    ensures o.Ok? <==> |Matches(r, HasValue)| == 1
    ensures o.Ok? ==> TopValues(r) == [o.value]
    ensures o.Err? ==> o.error.msg == Some("failed to get token from result ") && |o.error.children| == 1
  {
    match WhereOne<Token, seq<Token>>(r, HasValue)
    case Ok(v) =>
      assert TopValues(r) == [v.value.value] by {
        MatchesValues(r);
        assert Matches(r, HasValue) == [v];
        assert ValuesOf([v]) == [v.value.value] + ValuesOf([v][1..]);
      }
      Ok(v.value.value)
    case Err(e) => Err(FaultWith("failed to get token from result ", e))
  }

  /** get_token_value */
  function GetTokenValue(r: Result<Token>): (o: Either<string, LoadError>)
    ensures o.Ok? <==> GetToken(r).Ok?
    ensures o.Ok? ==> o.value == GetToken(r).value.value
  {
    match GetToken(r)
    case Ok(t) => Ok(t.value)
    case Err(e) => Err(e)
  }

  /** token_rule_name_is: the node holds a token of the named lexer rule. */
  function TokenRuleNameIs(ruleName: string): Result<Token> -> bool {
    (c: Result<Token>) => c.value.Some? && c.value.value.ruleName == ruleName
  }

  /** Python's `needle in haystack` on strings: a substring test. */
  predicate Contains(haystack: string, needle: string) {
    exists i :: 0 <= i <= |haystack| - |needle| && SliceAt(haystack, i, |needle|) == needle
  }

  function SliceAt(s: string, i: int, n: nat): string
    requires 0 <= i <= |s| - n
  {
    s[i..i + n]
  }

  /** A one-character needle is a substring exactly when it is one of the characters. */
  lemma ContainsOne(haystack: string, needle: string)
    ensures |needle| == 1 ==> (Contains(haystack, needle) <==> needle[0] in haystack)
  {
    if |needle| == 1 {
      if Contains(haystack, needle) {
        var i :| 0 <= i <= |haystack| - 1 && SliceAt(haystack, i, 1) == needle;
        assert haystack[i] == SliceAt(haystack, i, 1)[0];
      }
      if needle[0] in haystack {
        var i :| 0 <= i < |haystack| && haystack[i] == needle[0];
        assert SliceAt(haystack, i, 1) == needle;
      }
    }
  }

  /** The operator characters of the regex language. */
  function Operators(): string {
    ".\\()|[]-*+?!^"
  }

  /** A lexer rule built from a rule of one character. */
  function LiteralRule(value: string): (o: Either<LexRule, LoadError>)
    ensures o.Ok? <==> |value| == 1
    ensures o.Ok? ==> o.value == HeadRule(Literal(value[0]))
  {
    match NewLiteral(value)
    case Ok(l) => Ok(HeadRule(l))
    case Err(e) => Err(Detach(e))
  }

  /** The decision of load_special on the escaped text: `w` is the whitespace class, an
      operator is the literal operator, anything else is an Error. */
  function SpecialRule(value: string): (o: Either<LexRule, LoadError>)
    ensures o.Ok? <==> value == "w" || (|value| == 1 && value[0] in Operators())
    ensures value == "w" ==> o == Ok(HeadRule(WhitespaceClass()))
    ensures value != "w" && |value| == 1 && value[0] in Operators() ==> o == Ok(HeadRule(Literal(value[0])))
    ensures !Contains(Operators(), value) && value != "w" ==> o.Err? && o.error.msg == Some("invalid special char ")
  {
    ContainsOne(Operators(), value);
    if value == "w" then Ok(HeadRule(WhitespaceClass()))
    else if Contains(Operators(), value) then LiteralRule(value)
    else Err(Fault("invalid special char "))
  }

  /** load_special: the token of the `special_char` node, then SpecialRule. */
  function LoadSpecial(r: Result<Token>): (o: Either<LexRule, LoadError>)
    ensures o.Ok? ==> WhereOne<Token, seq<Token>>(r, RuleNameIs("special_char")).Ok?
    ensures o.Ok? ==> GetTokenValue(WhereOne<Token, seq<Token>>(r, RuleNameIs("special_char")).value).Ok?
    ensures o.Ok? ==> o == SpecialRule(GetTokenValue(WhereOne<Token, seq<Token>>(r, RuleNameIs("special_char")).value).value)
    ensures WhereOne<Token, seq<Token>>(r, RuleNameIs("special_char")).Ok? ==>
      GetTokenValue(WhereOne<Token, seq<Token>>(r, RuleNameIs("special_char")).value).Ok? ==>
      o == SpecialRule(GetTokenValue(WhereOne<Token, seq<Token>>(r, RuleNameIs("special_char")).value).value)
    ensures WhereOne<Token, seq<Token>>(r, RuleNameIs("special_char")).Err? ==>
      o == Err(WhereOne<Token, seq<Token>>(r, RuleNameIs("special_char")).error)
  {
    match WhereOne<Token, seq<Token>>(r, RuleNameIs("special_char"))
    case Err(e) => Err(e)
    case Ok(sc) =>
      match GetTokenValue(sc)
      case Err(e) => Err(e)
      case Ok(v) => SpecialRule(v)
  }

  /** load_literal: a Literal of the one token's text. */
  function LoadLiteral(r: Result<Token>): (o: Either<LexRule, LoadError>)
    ensures o.Ok? <==> GetTokenValue(r).Ok? && |GetTokenValue(r).value| == 1
    ensures o.Ok? ==> o.value == HeadRule(Literal(GetTokenValue(r).value[0]))
  {
    match GetTokenValue(r)
    case Err(e) => Err(e)
    case Ok(v) => LiteralRule(v)
  }

  /** `result[name]`: the nodes named `name`, each no larger than the searched tree. */
  function Nodes(r: Result<Token>, name: string): (cs: seq<Result<Token>>)
    ensures cs == Matches(r, RuleNameIs(name))
    ensures forall c | c in cs :: Size(c) <= Size(r)
  {
    WhereShape(r, RuleNameIs(name));
    WhereIsPreorder(r, RuleNameIs(name));
    Where(r, RuleNameIs(name)).children
  }

  /** load_range: exactly two `char` tokens, whose one-character texts are the lower and the
      upper bound of a Range. */
  function LoadRange(r: Result<Token>): (o: Either<LexRule, LoadError>)
    ensures |Where(r, TokenRuleNameIs("char")).children| != 2 ==> o.Err?
    ensures o.Ok? ==>
      var w := Where(r, TokenRuleNameIs("char")).children;
      |w| == 2 && GetTokenValue(w[0]).Ok? && GetTokenValue(w[1]).Ok? &&
      NewRange(GetTokenValue(w[0]).value, GetTokenValue(w[1]).value).Ok? &&
      o.value == HeadRule(Range(GetTokenValue(w[0]).value[0], GetTokenValue(w[1]).value[0]))
    ensures o.Ok? ==> o.value.HeadRule? && o.value.leaf.Range? && o.value.leaf.min < o.value.leaf.max
    ensures var w := Where(r, TokenRuleNameIs("char")).children;
      |w| == 2 && GetTokenValue(w[0]).Ok? && GetTokenValue(w[1]).Ok? &&
      NewRange(GetTokenValue(w[0]).value, GetTokenValue(w[1]).value).Ok? ==>
      o == Ok(HeadRule(Range(GetTokenValue(w[0]).value[0], GetTokenValue(w[1]).value[0])))
  {
    match WhereN<Token, seq<Token>>(r, TokenRuleNameIs("char"), 2)
    case Err(e) => Err(e)
    case Ok(w) =>
      match GetTokenValue(w.children[0])
      case Err(e) => Err(e)
      case Ok(min) =>
        match GetTokenValue(w.children[1])
        case Err(e) => Err(e)
        case Ok(max) =>
          match NewRange(min, max)
          case Err(e) => Err(Detach(e))
          case Ok(l) => Ok(HeadRule(l))
  }

  /** The loader keys of load_rule. */
  const RuleKeys: set<string> := {"literal", "any", "special", "and", "or", "class",
    "zero_or_more", "one_or_more", "zero_or_one", "until_empty", "not"}

  /** The loader keys of load_class_part. */
  const ClassPartKeys: set<string> := {"literal", "special", "range"}

  /** The rule a postfix or prefix operator builds around its operand. */
  function Wrap(name: string, operand: LexRule): LexRule {
    if name == "zero_or_more" then ZeroOrMore(operand)
    else if name == "one_or_more" then OneOrMore(operand)
    else if name == "zero_or_one" then ZeroOrOne(operand)
    else if name == "until_empty" then StreamProcessor.UntilEmpty(operand)
    else Not(operand)
  }

  /** load_rule: the factory over the regex result kinds. */
  function LoadRule(r: Result<Token>): (o: Either<LexRule, LoadError>)
    ensures Select(RuleKeys, r).Err? ==> o == Err(Select(RuleKeys, r).error)
    ensures o.Ok? ==> Select(RuleKeys, r).Ok?
    ensures o.Ok? && Select(RuleKeys, r).value.ruleName.value in {"literal", "any", "special"} ==>
      o.value.HeadRule?
    ensures Select(RuleKeys, r).Ok? ==>
      var v := Select(RuleKeys, r).value;
      var name := v.ruleName.value;
      (name == "literal" ==> o == LoadLiteral(v)) &&
      (name == "any" ==> o == Ok(HeadRule(Any))) &&
      (name == "special" ==> o == LoadSpecial(v)) &&
      (name == "and" ==> o == LoadAnd(v)) &&
      (name == "or" ==> o == LoadOr(v)) &&
      (name == "class" ==> o == LoadClass(v)) &&
      (name in {"zero_or_more", "one_or_more", "zero_or_one", "until_empty", "not"} ==> o == LoadUnary(name, v))
    decreases Size(r), 0, 0
  {
    match Select(RuleKeys, r)
    case Err(e) => Err(e)
    case Ok(v) =>
      var name := v.ruleName.value;
      if name == "literal" then LoadLiteral(v)
      else if name == "any" then Ok(HeadRule(Any))
      else if name == "special" then LoadSpecial(v)
      else if name == "and" then LoadAnd(v)
      else if name == "or" then LoadOr(v)
      else if name == "class" then LoadClass(v)
      else LoadUnary(name, v)
  }

  /** load_unary_operation: the operator applied to the one `operand` node's rule. */
  function LoadUnary(name: string, r: Result<Token>): (o: Either<LexRule, LoadError>)
    ensures o.Ok? ==> WhereOne<Token, seq<Token>>(r, RuleNameIs("operand")).Ok?
    ensures o.Ok? ==> LoadRule(WhereOne<Token, seq<Token>>(r, RuleNameIs("operand")).value).Ok?
    ensures o.Ok? ==> o.value == Wrap(name, LoadRule(WhereOne<Token, seq<Token>>(r, RuleNameIs("operand")).value).value)
    ensures WhereOne<Token, seq<Token>>(r, RuleNameIs("operand")).Err? ==>
      o == Err(WhereOne<Token, seq<Token>>(r, RuleNameIs("operand")).error)
    ensures WhereOne<Token, seq<Token>>(r, RuleNameIs("operand")).Ok? ==>
      var loaded := LoadRule(WhereOne<Token, seq<Token>>(r, RuleNameIs("operand")).value);
      (loaded.Ok? ==> o == Ok(Wrap(name, loaded.value))) && (loaded.Err? ==> o == loaded)
    decreases Size(r), 1, 0
  {
    match WhereOne<Token, seq<Token>>(r, RuleNameIs("operand"))
    case Err(e) => Err(e)
    case Ok(operand) =>
      match LoadRule(operand)
      case Err(e) => Err(e)
      case Ok(rule) => Ok(Wrap(name, rule))
  }

  /** The elements of a sequence after its first, counted from the second. */
  lemma TailIndex<T>(s: seq<T>)
    requires s != []
    ensures forall i :: 0 <= i < |s| - 1 ==> s[1..][i] == s[i + 1]
    ensures forall i :: 1 <= i < |s| ==> s[i] == s[1..][i - 1]
  {
  }

  /** The elements of a sequence with one element put in front. */
  lemma ConsIndex<T>(x: T, xs: seq<T>)
    ensures ([x] + xs)[0] == x
    ensures forall i :: 1 <= i <= |xs| ==> ([x] + xs)[i] == xs[i - 1]
  {
  }

  /** The rules of a list of `rule` nodes, in order; the first failure is raised. */
  function LoadRules(cs: seq<Result<Token>>, bound: nat): (o: Either<seq<LexRule>, LoadError>)
    requires forall c | c in cs :: Size(c) <= bound
    ensures o.Ok? <==> forall i :: 0 <= i < |cs| ==> LoadRule(cs[i]).Ok?
    ensures o.Ok? ==> |o.value| == |cs|
    ensures o.Ok? ==> forall i :: 0 <= i < |cs| ==> LoadRule(cs[i]) == Ok(o.value[i])
    decreases bound, 1, |cs|
  {
    if cs == [] then Ok([])
    else
      match LoadRule(cs[0])
      case Err(e) => Err(e)
      case Ok(rule) =>
        TailIndex(cs);
        match LoadRules(cs[1..], bound)
        case Err(e) => Err(e)
        case Ok(rules) =>
          ConsIndex(rule, rules);
          Ok([rule] + rules)
  }

  /** load_and: an And of the `rule` nodes' rules, collapsed to the bare rule when there is
      only one. */
  function LoadAnd(r: Result<Token>): (o: Either<LexRule, LoadError>)
    ensures var cs := Nodes(r, "rule");
      o.Ok? <==> forall i :: 0 <= i < |cs| ==> LoadRule(cs[i]).Ok?
    ensures var cs := Nodes(r, "rule");
      o.Ok? && |cs| == 1 ==> o == LoadRule(cs[0])
    ensures var cs := Nodes(r, "rule");
      o.Ok? && |cs| != 1 ==>
        o.value.And? && |o.value.children| == |cs| &&
        forall i :: 0 <= i < |cs| ==> LoadRule(cs[i]) == Ok(o.value.children[i])
    decreases Size(r), 2, 0
  {
    var cs := Nodes(r, "rule");
    match LoadRules(cs, Size(r))
    case Err(e) => Err(e)
    case Ok(rules) => if |rules| == 1 then Ok(rules[0]) else Ok(And(rules))
  }

  /** load_or: an Or of the `rule` nodes' rules. */
  function LoadOr(r: Result<Token>): (o: Either<LexRule, LoadError>)
    ensures var cs := Nodes(r, "rule");
      o.Ok? <==> forall i :: 0 <= i < |cs| ==> LoadRule(cs[i]).Ok?
    ensures var cs := Nodes(r, "rule");
      o.Ok? ==>
        o.value.Or? && |o.value.children| == |cs| &&
        forall i :: 0 <= i < |cs| ==> LoadRule(cs[i]) == Ok(o.value.children[i])
    decreases Size(r), 2, 0
  {
    var cs := Nodes(r, "rule");
    match LoadRules(cs, Size(r))
    case Err(e) => Err(e)
    case Ok(rules) => Ok(Or(rules))
  }

  /** load_class_part: the factory over literal, special and range parts. */
  function LoadClassPart(r: Result<Token>): (o: Either<LexRule, LoadError>)
    ensures o.Ok? ==> o.value.HeadRule?
    ensures Select(ClassPartKeys, r).Err? ==> o == Err(Select(ClassPartKeys, r).error)
    ensures Select(ClassPartKeys, r).Ok? ==>
      var v := Select(ClassPartKeys, r).value;
      var name := v.ruleName.value;
      (name == "literal" ==> o == LoadLiteral(v)) &&
      (name == "special" ==> o == LoadSpecial(v)) &&
      (name == "range" ==> o == LoadRange(v))
  {
    match Select(ClassPartKeys, r)
    case Err(e) => Err(e)
    case Ok(v) =>
      var name := v.ruleName.value;
      if name == "literal" then LoadLiteral(v)
      else if name == "special" then LoadSpecial(v)
      else LoadRange(v)
  }

  function LoadClassParts(cs: seq<Result<Token>>): (o: Either<seq<LexRule>, LoadError>)
    ensures o.Ok? <==> forall i :: 0 <= i < |cs| ==> LoadClassPart(cs[i]).Ok?
    ensures o.Ok? ==> |o.value| == |cs|
    ensures o.Ok? ==> forall i :: 0 <= i < |cs| ==> LoadClassPart(cs[i]) == Ok(o.value[i])
  {
    if cs == [] then Ok([])
    else
      TailIndex(cs);
      match LoadClassPart(cs[0])
      case Err(e) => Err(e)
      case Ok(rule) =>
        match LoadClassParts(cs[1..])
        case Err(e) => Err(e)
        case Ok(rules) =>
          ConsIndex(rule, rules);
          Ok([rule] + rules)
  }

  /** load_class: an Or of the parts, collapsed to the bare part when there is only one. */
  function LoadClass(r: Result<Token>): (o: Either<LexRule, LoadError>)
    ensures var cs := Nodes(r, "class_part");
      o.Ok? <==> forall i :: 0 <= i < |cs| ==> LoadClassPart(cs[i]).Ok?
    ensures var cs := Nodes(r, "class_part");
      o.Ok? && |cs| == 1 ==> o == LoadClassPart(cs[0])
    ensures var cs := Nodes(r, "class_part");
      o.Ok? && |cs| != 1 ==>
        o.value.Or? && |o.value.children| == |cs| &&
        forall i :: 0 <= i < |cs| ==> LoadClassPart(cs[i]) == Ok(o.value.children[i]) && o.value.children[i].HeadRule?
  {
    match LoadClassParts(Nodes(r, "class_part"))
    case Err(e) => Err(e)
    case Ok(parts) => if |parts| == 1 then Ok(parts[0]) else Ok(Or(parts))
  }

  /** A sequence of one rule is that rule itself: load_and does not wrap it in an And. */
  lemma AndCollapses(r: Result<Token>)
    requires LoadAnd(r).Ok? && |Where(r, RuleNameIs("rule")).children| == 1
    ensures LoadAnd(r) == LoadRule(Where(r, RuleNameIs("rule")).children[0])
  {
  }

  /** A class of one part is that part itself: load_class does not wrap it in an Or. */
  lemma ClassCollapses(r: Result<Token>)
    requires LoadClass(r).Ok? && |Where(r, RuleNameIs("class_part")).children| == 1
    ensures LoadClass(r) == LoadClassPart(Where(r, RuleNameIs("class_part")).children[0])
  {
  }

  /** The rule of a parser literal token. */
  function Lit(ruleName: string): ParserRule {
    HeadRule(ruleName)
  }

  /** The names declared in ds. */
  function NamesOf<T>(ds: seq<(string, T)>): (names: set<string>)
    ensures forall i :: 0 <= i < |ds| ==> ds[i].0 in names
  {
    if ds == [] then {} else {ds[0].0} + NamesOf(ds[1..])
  }

  /** No declaration after the i-th declares the same name. */
  predicate LastOf<T>(ds: seq<(string, T)>, i: nat)
    requires i < |ds|
  {
    ds[i].0 !in NamesOf(ds[i + 1..])
  }

  /** What storing the named rules ds one after the other into m0 promises of the map m it
      gives: its keys are those of m0 and the declared names, each declared name holds the
      rule of its last declaration, and every other key keeps its rule. */
  predicate Declares<T(==)>(m0: map<string, T>, ds: seq<(string, T)>, m: map<string, T>) {
    m.Keys == m0.Keys + NamesOf(ds) &&
    (forall i :: 0 <= i < |ds| && LastOf(ds, i) ==> ds[i].0 in m && m[ds[i].0] == ds[i].1) &&
    (forall k :: k in m0 && k !in NamesOf(ds) ==> k in m && m[k] == m0[k])
  }

  /** Storing one more declaration first. */
  lemma DeclaresStep<T>(m0: map<string, T>, d: (string, T), ds: seq<(string, T)>, m: map<string, T>)
    requires Declares(m0[d.0 := d.1], ds, m)
    ensures Declares(m0, [d] + ds, m)
  {
    var all := [d] + ds;
    assert all[0] == d && all[1..] == ds;
    assert NamesOf(all) == {d.0} + NamesOf(ds);
    forall i | 0 <= i < |all| && LastOf(all, i)
      ensures all[i].0 in m && m[all[i].0] == all[i].1
    {
      if i > 0 {
        assert all[i] == ds[i - 1] && all[i + 1..] == ds[i..];
        assert LastOf(ds, i - 1);
      }
    }
  }

  /** Every name of NamesOf(ds) is declared in ds. */
  lemma {:induction false} NamesOfDeclared<T>(ds: seq<(string, T)>, k: string)
    requires k in NamesOf(ds)
    ensures exists j :: 0 <= j < |ds| && ds[j].0 == k
  {
    if ds[0].0 != k {
      NamesOfDeclared(ds[1..], k);
      var j :| 0 <= j < |ds[1..]| && ds[1..][j].0 == k;
      assert ds[j + 1].0 == k;
    }
  }

  /** When no name is declared twice, each declared name holds the rule of its declaration. */
  lemma DistinctDeclares<T>(m0: map<string, T>, ds: seq<(string, T)>, m: map<string, T>)
    requires Declares(m0, ds, m)
    requires forall i, j :: 0 <= i < j < |ds| ==> ds[i].0 != ds[j].0
    ensures forall i :: 0 <= i < |ds| ==> ds[i].0 in m && m[ds[i].0] == ds[i].1
  {
    forall i | 0 <= i < |ds|
      ensures ds[i].0 in m && m[ds[i].0] == ds[i].1
    {
      if ds[i].0 in NamesOf(ds[i + 1..]) {
        NamesOfDeclared(ds[i + 1..], ds[i].0);
        assert false;
      }
      assert LastOf(ds, i);
    }
  }

  /** Storing nothing changes nothing. */
  lemma DeclaresNothing<T>(m: map<string, T>)
    ensures Declares(m, [], m)
  {
  }

  /** The names paired with their rules. */
  function Zip<T>(names: seq<string>, rules: seq<T>): (ds: seq<(string, T)>)
    requires |names| == |rules|
    ensures |ds| == |names|
    ensures forall i :: 0 <= i < |ds| ==> ds[i] == (names[i], rules[i])
  {
    seq(|names|, i requires 0 <= i < |names| => (names[i], rules[i]))
  }

  /** Storing names with their rules declares exactly those names; when no name repeats, each
      holds its own rule. */
  lemma ZipDeclares<T>(m0: map<string, T>, names: seq<string>, rules: seq<T>, m: map<string, T>)
    requires |names| == |rules| && Declares(m0, Zip(names, rules), m)
    ensures m.Keys == m0.Keys + set n | n in names
    ensures (forall i, j :: 0 <= i < j < |names| ==> names[i] != names[j]) ==>
      forall i :: 0 <= i < |names| ==> names[i] in m && m[names[i]] == rules[i]
  {
    var ds := Zip(names, rules);
    forall k | k in NamesOf(ds)
      ensures k in names
    {
      NamesOfDeclared(ds, k);
    }
    forall k | k in names
      ensures k in NamesOf(ds)
    {
      var i :| 0 <= i < |names| && names[i] == k;
      assert ds[i].0 == k;
    }
    assert NamesOf(ds) == set n | n in names;
    if forall i, j :: 0 <= i < j < |names| ==> names[i] != names[j] {
      DistinctDeclares(m0, ds, m);
    }
  }

  /** Insert each name with its rule, in order: a later rule for a name replaces an earlier one. */
  function PutAll<T(==)>(m: OrderedMap<T>, names: seq<string>, rules: seq<T>): (r: OrderedMap<T>)
    requires |names| == |rules|
    ensures ValidMap(m) ==> ValidMap(r)
    ensures r.entries.Keys == m.entries.Keys + set n | n in names
    ensures Declares(m.entries, Zip(names, rules), r.entries)
    ensures (forall i, j :: 0 <= i < j < |names| ==> names[i] != names[j]) ==>
      forall i :: 0 <= i < |names| ==> names[i] in r.entries && r.entries[names[i]] == rules[i]
    decreases |names|
  {
    if names == [] then
      DeclaresNothing(m.entries);
      m
    else
      var d := (names[0], rules[0]);
      var rest := PutAll(Put(m, d.0, d.1), names[1..], rules[1..]);
      assert Zip(names, rules) == [d] + Zip(names[1..], rules[1..]);
      DeclaresStep(m.entries, d, Zip(names[1..], rules[1..]), rest.entries);
      ZipDeclares(m.entries, names, rules, rest.entries);
      rest
  }

  function EmptyMap<T>(): (m: OrderedMap<T>)
    ensures ValidMap(m)
  {
    OrderedMap([], map[])
  }

  /** Each operator character as a one-character name. */
  function OperatorNames(): (names: seq<string>)
    ensures |names| == |Operators()|
    ensures forall i :: 0 <= i < |names| ==> names[i] == [Operators()[i]]
  {
    seq(|Operators()|, i requires 0 <= i < |Operators()| => [Operators()[i]])
  }

  /** Each operator character as a Literal lexer rule, in the order of OperatorNames. */
  function OperatorLiterals(): (rules: seq<LexRule>)
    ensures |rules| == |Operators()|
    ensures forall i :: 0 <= i < |rules| ==> rules[i] == HeadRule(Literal(Operators()[i]))
  {
    seq(|Operators()|, i requires 0 <= i < |Operators()| => HeadRule(Literal(Operators()[i])))
  }

  /** The lexer of the regex language: any non-operator character is a `char` token, and each
      operator is a token named by itself. */
  function RegexLexerRules(): OrderedMap<LexRule> {
    PutAll(Put(EmptyMap(), "char", Not(HeadRule(Class(set c | c in Operators())))), OperatorNames(), OperatorLiterals())
  }

  /** The grammar of the regex language. */
  function RegexParserRules(): map<string, ParserRule> {
    map[
      "root" := StreamProcessor.UntilEmpty(Ref("rule")),
      "rule" := Or([Ref("operation"), Ref("operand")]),
      "operand" := Or([Ref("literal"), Ref("any"), Ref("special"), Ref("and"), Ref("or"), Ref("class")]),
      "operation" := Or([Ref("zero_or_more"), Ref("one_or_more"), Ref("zero_or_one"), Ref("until_empty"), Ref("not")]),
      "zero_or_more" := And([Ref("operand"), Lit("*")]),
      "one_or_more" := And([Ref("operand"), Lit("+")]),
      "zero_or_one" := And([Ref("operand"), Lit("?")]),
      "until_empty" := And([Ref("operand"), Lit("!")]),
      "not" := And([Lit("^"), Ref("operand")]),
      "literal" := Lit("char"),
      "any" := Lit("."),
      "special" := And([Lit("\\"), Ref("special_char")]),
      "special_char" := Or([Lit("char")] + seq(|Operators()|, i requires 0 <= i < |Operators()| => Lit([Operators()[i]]))),
      "and" := And([Lit("("), OneOrMore(Ref("rule")), Lit(")")]),
      "or" := And([Lit("("), Ref("rule"), OneOrMore(And([Lit("|"), Ref("rule")])), Lit(")")]),
      "class" := And([Lit("["), OneOrMore(Ref("class_part")), Lit("]")]),
      "class_part" := Or([Ref("range"), Ref("literal"), Ref("special")]),
      "range" := And([Lit("char"), Lit("-"), Lit("char")])
    ]
  }

  function RegexParser(): Parser {
    Parser("root", RegexParserRules(), RegexLexerRules())
  }

  /** load_lex_rule: parse the regex and load the top-level sequence as load_and does. */
  function LoadLexRule(regex: string, fuel: nat): (o: Loaded<LexRule>)
    ensures o.Loaded? ==> Parse(RegexParser(), regex, fuel).Parsed?
    ensures o.Loaded? ==> LoadAnd(Parse(RegexParser(), regex, fuel).result) == Ok(o.value)
    ensures Parse(RegexParser(), regex, fuel).ParseFailed? ==> o == LoadFailed(Parse(RegexParser(), regex, fuel).error)
    ensures Parse(RegexParser(), regex, fuel).ParseAborted? ==> o.LoadAborted?
    ensures Parse(RegexParser(), regex, fuel).Parsed? ==>
      var loaded := LoadAnd(Parse(RegexParser(), regex, fuel).result);
      (o.Loaded? <==> loaded.Ok?) && (loaded.Err? ==> o == LoadFailed(loaded.error))
  {
    match Parse(RegexParser(), regex, fuel)
    case ParseFailed(e) => LoadFailed(e)
    case ParseAborted(reason) => LoadAborted(reason)
    case Parsed(r) =>
      match LoadAnd(r)
      case Err(e) => LoadFailed(e)
      case Ok(rule) => Loaded(rule)
  }

  /** The operators of the grammar language. */
  function GrammarOperators(): seq<string> {
    ["=>", "=", ";", "|", "(", ")"]
  }

  /** operator_rule: a Literal for a one-character operator, an And of Literals otherwise. */
  function OperatorRule(op: string): (r: LexRule)
    ensures |op| == 1 ==> r == HeadRule(Literal(op[0]))
    ensures |op| != 1 ==> r.And? && |r.children| == |op|
    ensures |op| != 1 ==> forall i :: 0 <= i < |op| ==> r.children[i] == HeadRule(Literal(op[i]))
  {
    if |op| == 1 then HeadRule(Literal(op[0]))
    else And(seq(|op|, i requires 0 <= i < |op| => HeadRule(Literal(op[i]))))
  }

  /** The lexer rule of each grammar operator, in order. */
  function GrammarOperatorRules(): (rules: seq<LexRule>)
    ensures |rules| == |GrammarOperators()|
  {
    seq(|GrammarOperators()|, i requires 0 <= i < |GrammarOperators()| => OperatorRule(GrammarOperators()[i]))
  }

  /** The lexer of the grammar language: whitespace (excluded), identifiers, quoted regexes
      and the operators, in that order. Its identifier and regex rules are themselves loaded
      from regexes. */
  function GrammarLexerRules(fuel: nat): Loaded<OrderedMap<LexRule>> {
    match LoadLexRule("[_a-zA-Z][_a-zA-Z0-9]*", fuel)
    case LoadFailed(e) => LoadFailed(e)
    case LoadAborted(reason) => LoadAborted(reason)
    case Loaded(id) =>
      match LoadLexRule("\"(^\")+\"", fuel)
      case LoadFailed(e) => LoadFailed(e)
      case LoadAborted(reason) => LoadAborted(reason)
      case Loaded(lexerVal) =>
        Loaded(PutAll(Put(Put(Put(EmptyMap(), "_ws", HeadRule(WhitespaceClass())), "id", id), "lexer_val", lexerVal),
          GrammarOperators(), GrammarOperatorRules()))
  }

  /** The grammar of the grammar language. */
  function GrammarParserRules(): map<string, ParserRule> {
    map[
      "root" := StreamProcessor.UntilEmpty(Ref("line")),
      "line" := And([Ref("decl"), Lit(";")]),
      "decl" := Or([Ref("lexer_decl"), Ref("parser_decl")]),
      "lexer_decl" := And([Lit("id"), Lit("="), Lit("lexer_val")]),
      "parser_decl" := And([Ref("rule_name"), Lit("=>"), Ref("rule")]),
      "rule_name" := Lit("id"),
      "rule" := Or([Ref("or"), Ref("and"), Ref("operand")]),
      "operand" := Or([Ref("paren_rule"), Ref("unary_operand")]),
      "unary_operand" := Or([Ref("ref")]),
      "ref" := Lit("id"),
      "and" := And([Ref("operand"), OneOrMore(Ref("operand"))]),
      "or" := And([Ref("operand"), OneOrMore(And([Lit("|"), Ref("operand")]))]),
      "paren_rule" := And([Lit("("), Ref("rule"), Lit(")")])
    ]
  }

  /** The `lexer_decl` nodes of a grammar parse, in order. */
  function LexerDecls(r: Result<Token>): seq<Result<Token>> {
    Where(r, RuleNameIs("lexer_decl")).children
  }

  /** The `parser_decl` nodes of a grammar parse, in order. */
  function ParserDecls(r: Result<Token>): seq<Result<Token>> {
    Where(r, RuleNameIs("parser_decl")).children
  }

  /** Python's `s[1:-1]`: the text without its first and last characters. */
  function StripQuotes(s: string): (t: string)
    ensures |s| >= 2 ==> s == [s[0]] + t + [s[|s| - 1]]
    ensures |s| < 2 ==> t == ""
  {
    if |s| < 2 then "" else s[1..|s| - 1]
  }

  /** The texts of a lexer declaration's `id` token and of its quoted `lexer_val` token. */
  function LexerDeclText(decl: Result<Token>): (o: Either<(string, string), LoadError>)
    ensures o.Ok? <==>
      WhereOne<Token, seq<Token>>(decl, TokenRuleNameIs("id")).Ok? &&
      GetTokenValue(WhereOne<Token, seq<Token>>(decl, TokenRuleNameIs("id")).value).Ok? &&
      WhereOne<Token, seq<Token>>(decl, TokenRuleNameIs("lexer_val")).Ok? &&
      GetTokenValue(WhereOne<Token, seq<Token>>(decl, TokenRuleNameIs("lexer_val")).value).Ok?
    ensures o.Ok? ==>
      o.value.0 == GetTokenValue(WhereOne<Token, seq<Token>>(decl, TokenRuleNameIs("id")).value).value &&
      o.value.1 == GetTokenValue(WhereOne<Token, seq<Token>>(decl, TokenRuleNameIs("lexer_val")).value).value
  {
    match WhereOne<Token, seq<Token>>(decl, TokenRuleNameIs("id"))
    case Err(e) => Err(e)
    case Ok(idResult) =>
      match GetTokenValue(idResult)
      case Err(e) => Err(e)
      case Ok(name) =>
        match WhereOne<Token, seq<Token>>(decl, TokenRuleNameIs("lexer_val"))
        case Err(e) => Err(e)
        case Ok(valResult) =>
          match GetTokenValue(valResult)
          case Err(e) => Err(e)
          case Ok(regex) => Ok((name, regex))
  }

  /** One lexer declaration: its `id` token's text names it, and its quoted `lexer_val`
      token's text, without the quotes, is loaded as a regex. */
  function LexerDecl(decl: Result<Token>, fuel: nat): (o: Loaded<(string, LexRule)>)
    ensures LexerDeclText(decl).Err? ==> o == LoadFailed(LexerDeclText(decl).error)
    ensures o.Loaded? ==> LexerDeclText(decl).Ok? && o.value.0 == LexerDeclText(decl).value.0
    ensures LexerDeclText(decl).Ok? ==>
      (o.Loaded? <==> LoadLexRule(StripQuotes(LexerDeclText(decl).value.1), fuel).Loaded?) &&
      (o.Loaded? ==> LoadLexRule(StripQuotes(LexerDeclText(decl).value.1), fuel) == Loaded(o.value.1))
  {
    match LexerDeclText(decl)
    case Err(e) => LoadFailed(e)
    case Ok((name, regex)) =>
      match LoadLexRule(StripQuotes(regex), fuel)
      case LoadFailed(e) => LoadFailed(e)
      case LoadAborted(reason) => LoadAborted(reason)
      case Loaded(rule) => Loaded((name, rule))
  }

  /** The loads of the declarations, in order. */
  function LexerDeclLoads(decls: seq<Result<Token>>, fuel: nat): (ls: seq<Loaded<(string, LexRule)>>)
    ensures |ls| == |decls|
    ensures forall i :: 0 <= i < |decls| ==> ls[i] == LexerDecl(decls[i], fuel)
    decreases |decls|
  {
    if decls == [] then []
    else
      var rest := LexerDeclLoads(decls[1..], fuel);
      TailIndex(decls);
      ConsIndex(LexerDecl(decls[0], fuel), rest);
      [LexerDecl(decls[0], fuel)] + rest
  }

  /** The named rules ls stored one after the other into m, in order; the first load that
      fails stops the loop with its failure. */
  function PutLoads<T>(m: OrderedMap<T>, ls: seq<Loaded<(string, T)>>): (o: Loaded<OrderedMap<T>>)
    ensures ValidMap(m) && o.Loaded? ==> ValidMap(o.value)
    ensures o.Loaded? ==> m.entries.Keys <= o.value.entries.Keys
    ensures o.Loaded? <==> forall i :: 0 <= i < |ls| ==> ls[i].Loaded?
    decreases |ls|
  {
    if ls == [] then Loaded(m)
    else
      assert forall i :: 1 <= i < |ls| ==> ls[i] == ls[1..][i - 1];
      match ls[0]
      case LoadFailed(e) => LoadFailed(e)
      case LoadAborted(reason) => LoadAborted(reason)
      case Loaded(d) => PutLoads(Put(m, d.0, d.1), ls[1..])
  }

  /** One step of PutLoads from the i-th load: its failure, or the loads after it stored
      after its rule. */
  lemma PutLoadsAt<T>(m: OrderedMap<T>, ls: seq<Loaded<(string, T)>>, i: nat)
    requires i < |ls|
    ensures ls[i].LoadFailed? ==> PutLoads(m, ls[i..]) == LoadFailed(ls[i].error)
    ensures ls[i].LoadAborted? ==> PutLoads(m, ls[i..]) == LoadAborted(ls[i].reason)
    ensures ls[i].Loaded? ==> PutLoads(m, ls[i..]) == PutLoads(Put(m, ls[i].value.0, ls[i].value.1), ls[i + 1..])
  {
    assert ls[i..][0] == ls[i] && ls[i..][1..] == ls[i + 1..];
  }

  /** Storing no loads leaves the map as it is. */
  lemma PutLoadsNone<T>(m: OrderedMap<T>, ls: seq<Loaded<(string, T)>>)
    ensures PutLoads(m, ls[|ls|..]) == Loaded(m)
  {
    assert ls[|ls|..] == [];
  }

  /** The named rules of loads that all succeeded. */
  function LoadedValues<T>(ls: seq<Loaded<(string, T)>>): (ds: seq<(string, T)>)
    requires forall i :: 0 <= i < |ls| ==> ls[i].Loaded?
    ensures |ds| == |ls|
    ensures forall i :: 0 <= i < |ls| ==> ds[i] == ls[i].value
  {
    seq(|ls|, i requires 0 <= i < |ls| => ls[i].value)
  }

  /** Storing loads that all succeed declares their named rules, the last declaration of a
      name winning. */
  lemma {:induction false} PutLoadsDeclares<T>(m: OrderedMap<T>, ls: seq<Loaded<(string, T)>>)
    requires PutLoads(m, ls).Loaded?
    ensures forall i :: 0 <= i < |ls| ==> ls[i].Loaded?
    ensures Declares(m.entries, LoadedValues(ls), PutLoads(m, ls).value.entries)
    decreases |ls|
  {
    if ls == [] {
      DeclaresNothing(m.entries);
    } else {
      var d := ls[0].value;
      var rest := ls[1..];
      assert forall i :: 1 <= i < |ls| ==> ls[i] == rest[i - 1];
      PutLoadsDeclares(Put(m, d.0, d.1), rest);
      assert LoadedValues(ls) == [d] + LoadedValues(rest);
      DeclaresStep(m.entries, d, LoadedValues(rest), PutLoads(m, ls).value.entries);
    }
  }

  /** The lexer rules of the declarations, each stored under its name in declaration order;
      a later declaration of a name replaces the rule of an earlier one in its place. */
  function LexerRulesFrom(m: OrderedMap<LexRule>, decls: seq<Result<Token>>, fuel: nat): (o: Loaded<OrderedMap<LexRule>>)
    ensures ValidMap(m) && o.Loaded? ==> ValidMap(o.value)
    ensures o.Loaded? ==> m.entries.Keys <= o.value.entries.Keys
    ensures o.Loaded? <==> forall i :: 0 <= i < |decls| ==> LexerDecl(decls[i], fuel).Loaded?
  {
    PutLoads(m, LexerDeclLoads(decls, fuel))
  }

  /** Loading the lexer declarations stores each declared name with the rule of its last
      declaration and keeps every other rule of m. */
  lemma LexerRulesFromDeclares(m: OrderedMap<LexRule>, decls: seq<Result<Token>>, fuel: nat)
    requires LexerRulesFrom(m, decls, fuel).Loaded?
    ensures forall i :: 0 <= i < |decls| ==> LexerDecl(decls[i], fuel).Loaded?
    ensures Declares(m.entries, LoadedValues(LexerDeclLoads(decls, fuel)), LexerRulesFrom(m, decls, fuel).value.entries)
  {
    PutLoadsDeclares(m, LexerDeclLoads(decls, fuel));
  }

  /** What a successful load of lexer declarations into the empty map gives. */
  lemma LoadedLexerRules(decls: seq<Result<Token>>, fuel: nat)
    ensures LexerRulesFrom(EmptyMap(), decls, fuel).Loaded? ==>
      var ls := LexerDeclLoads(decls, fuel);
      ValidMap(LexerRulesFrom(EmptyMap(), decls, fuel).value) &&
      (forall i :: 0 <= i < |ls| ==> ls[i].Loaded?) &&
      Declares(map[], LoadedValues(ls), LexerRulesFrom(EmptyMap(), decls, fuel).value.entries)
  {
    if LexerRulesFrom(EmptyMap(), decls, fuel).Loaded? {
      PutLoadsDeclares(EmptyMap(), LexerDeclLoads(decls, fuel));
    }
  }

  /** load_lexer_rules: the loop storing each lexer declaration's rule in the ordered map. */
  method LoadLexerRules(result: Result<Token>, fuel: nat) returns (o: Loaded<OrderedMap<LexRule>>)
    ensures o == LexerRulesFrom(EmptyMap(), LexerDecls(result), fuel)
    ensures o.Loaded? ==> ValidMap(o.value)
    ensures o.Loaded? ==>
      var ls := LexerDeclLoads(LexerDecls(result), fuel);
      (forall i :: 0 <= i < |ls| ==> ls[i].Loaded?) && Declares(map[], LoadedValues(ls), o.value.entries)
  {
    var decls := LexerDecls(result);
    ghost var ls := LexerDeclLoads(decls, fuel);
    var lexerRules: OrderedMap<LexRule> := EmptyMap();
    for i := 0 to |decls|
      invariant LexerRulesFrom(EmptyMap(), decls, fuel) == PutLoads(lexerRules, ls[i..])
    {
      var l := LexerDecl(decls[i], fuel);
      assert l == ls[i];
      PutLoadsAt(lexerRules, ls, i);
      match l
      case LoadFailed(e) =>
        return LoadFailed(e);
      case LoadAborted(reason) =>
        return LoadAborted(reason);
      case Loaded(d) =>
        lexerRules := Put(lexerRules, d.0, d.1);
    }
    PutLoadsNone(lexerRules, ls);
    o := Loaded(lexerRules);
    LoadedLexerRules(decls, fuel);
  }

  /** The loader keys of the parser rule factory. */
  const ParserRuleKeys: set<string> := {"ref", "and", "or"}

  /** load_rule of load_parser_rules: a Ref to the token's text, or an And or Or of the
      `operand` nodes' rules. */
  function LoadParserRule(r: Result<Token>): (o: Either<ParserRule, LoadError>)
    ensures o.Ok? ==> o.value.Ref? || o.value.And? || o.value.Or?
    ensures Select(ParserRuleKeys, r).Err? ==> o == Err(Select(ParserRuleKeys, r).error)
    ensures Select(ParserRuleKeys, r).Ok? && Select(ParserRuleKeys, r).value.ruleName.value == "ref" ==>
      var v := Select(ParserRuleKeys, r).value;
      (o.Ok? <==> GetTokenValue(v).Ok?) &&
      (o.Ok? ==> o.value == Ref(GetTokenValue(v).value)) &&
      (o.Err? ==> o.error.msg == Some("failed to load ref "))
    ensures Select(ParserRuleKeys, r).Ok? && Select(ParserRuleKeys, r).value.ruleName.value != "ref" ==>
      var v := Select(ParserRuleKeys, r).value;
      var cs := Nodes(v, "operand");
      (o.Ok? <==> forall i :: 0 <= i < |cs| ==> LoadParserRule(cs[i]).Ok?) &&
      (o.Ok? ==>
         (if v.ruleName.value == "and" then o.value.And? else o.value.Or?) && |o.value.children| == |cs| &&
         forall i :: 0 <= i < |cs| ==> LoadParserRule(cs[i]) == Ok(o.value.children[i]))
    decreases Size(r), 0, 0
  {
    match Select(ParserRuleKeys, r)
    case Err(e) => Err(e)
    case Ok(v) =>
      var name := v.ruleName.value;
      if name == "ref" then
        (match GetTokenValue(v)
         case Err(e) => Err(FaultWith("failed to load ref ", e))
         case Ok(value) => Ok(Ref(value)))
      else
        var cs := Nodes(v, "operand");
        match LoadOperands(cs, Size(v))
        case Err(e) => Err(e)
        case Ok(rules) => if name == "and" then Ok(And(rules)) else Ok(Or(rules))
  }

  function LoadOperands(cs: seq<Result<Token>>, bound: nat): (o: Either<seq<ParserRule>, LoadError>)
    requires forall c | c in cs :: Size(c) <= bound
    ensures o.Ok? <==> forall i :: 0 <= i < |cs| ==> LoadParserRule(cs[i]).Ok?
    ensures o.Ok? ==> |o.value| == |cs|
    ensures o.Ok? ==> forall i :: 0 <= i < |cs| ==> LoadParserRule(cs[i]) == Ok(o.value[i])
    decreases bound, 1, |cs|
  {
    if cs == [] then Ok([])
    else
      TailIndex(cs);
      match LoadParserRule(cs[0])
      case Err(e) => Err(e)
      case Ok(rule) =>
        match LoadOperands(cs[1..], bound)
        case Err(e) => Err(e)
        case Ok(rules) =>
          ConsIndex(rule, rules);
          Ok([rule] + rules)
  }

  /** One parser declaration: the text of its `rule_name` node and the rule of its `rule` node. */
  function ParserDecl(decl: Result<Token>): (o: Either<(string, ParserRule), LoadError>)
    ensures WhereOne<Token, seq<Token>>(decl, RuleNameIs("rule_name")).Err? ==>
      o.Err? && o.error.msg == Some("failed to get rule_name in ")
    ensures o.Ok? ==> WhereOne<Token, seq<Token>>(decl, RuleNameIs("rule_name")).Ok?
    ensures o.Ok? ==> GetTokenValue(WhereOne<Token, seq<Token>>(decl, RuleNameIs("rule_name")).value) == Ok(o.value.0)
    ensures o.Ok? ==> WhereOne<Token, seq<Token>>(decl, RuleNameIs("rule")).Ok?
    ensures o.Ok? ==> LoadParserRule(WhereOne<Token, seq<Token>>(decl, RuleNameIs("rule")).value) == Ok(o.value.1)
  {
    match WhereOne<Token, seq<Token>>(decl, RuleNameIs("rule_name"))
    case Err(e) => Err(FaultWith("failed to get rule_name in ", e))
    case Ok(nameResult) =>
      match GetTokenValue(nameResult)
      case Err(e) => Err(FaultWith("failed to get rule_name in ", e))
      case Ok(name) =>
        match WhereOne<Token, seq<Token>>(decl, RuleNameIs("rule"))
        case Err(e) => Err(FaultWith("failed to find rule in decl ", e))
        case Ok(ruleResult) =>
          match LoadParserRule(ruleResult)
          case Err(e) => Err(e)
          case Ok(rule) => Ok((name, rule))
  }

  /** The parser rules of the declarations: the root is the first declaration's name, and a
      later declaration of a name replaces an earlier one. */
  function ParserRulesFrom(root: Option<string>, rules: map<string, ParserRule>, decls: seq<Result<Token>>)
    : (o: Either<(Option<string>, map<string, ParserRule>), LoadError>)
    ensures o.Ok? ==> (root.Some? ==> o.value.0 == root)
    ensures o.Ok? ==> (o.value.0.None? <==> root.None? && decls == [])
    ensures o.Ok? ==> rules.Keys <= o.value.1.Keys
    ensures o.Ok? && o.value.0.Some? && root.None? ==> o.value.0.value in o.value.1
    ensures o.Ok? && root.None? && decls != [] ==>
      ParserDecl(decls[0]).Ok? && o.value.0 == Some(ParserDecl(decls[0]).value.0)
    decreases |decls|
  {
    if decls == [] then Ok((root, rules))
    else
      match ParserDecl(decls[0])
      case Err(e) => Err(e)
      case Ok(d) =>
        var newRoot := if root.None? then Some(d.0) else root;
        ParserRulesFrom(newRoot, rules[d.0 := d.1], decls[1..])
  }

  /** The name and rule of each parser declaration, in order, once all of them load. */
  function ParserLoads(decls: seq<Result<Token>>): (ds: seq<(string, ParserRule)>)
    requires forall i :: 0 <= i < |decls| ==> ParserDecl(decls[i]).Ok?
    ensures |ds| == |decls|
    ensures forall i :: 0 <= i < |decls| ==> ds[i] == ParserDecl(decls[i]).value
  {
    seq(|decls|, i requires 0 <= i < |decls| => ParserDecl(decls[i]).value)
  }

  /** Loading the parser declarations succeeds only when each of them loads, and then stores
      each declared name with the rule of its last declaration, keeping every other rule. */
  lemma {:induction false} ParserRulesFromDeclares(root: Option<string>, rules: map<string, ParserRule>, decls: seq<Result<Token>>)
    requires ParserRulesFrom(root, rules, decls).Ok?
    ensures forall i :: 0 <= i < |decls| ==> ParserDecl(decls[i]).Ok?
    ensures Declares(rules, ParserLoads(decls), ParserRulesFrom(root, rules, decls).value.1)
    decreases |decls|
  {
    if decls == [] {
      DeclaresNothing(rules);
    } else {
      var first := ParserDecl(decls[0]);
      assert first.Ok?;
      var d := first.value;
      var newRoot := if root.None? then Some(d.0) else root;
      var o := ParserRulesFrom(newRoot, rules[d.0 := d.1], decls[1..]);
      assert ParserRulesFrom(root, rules, decls) == o;
      ParserRulesFromDeclares(newRoot, rules[d.0 := d.1], decls[1..]);
      forall i | 1 <= i < |decls|
        ensures ParserDecl(decls[i]).Ok?
      {
        assert decls[i] == decls[1..][i - 1];
      }
      ParserLoadsCons(decls);
      DeclaresStep(rules, d, ParserLoads(decls[1..]), o.value.1);
    }
  }

  /** The loads of the declarations are the first one's followed by the others'. */
  lemma ParserLoadsCons(decls: seq<Result<Token>>)
    requires decls != []
    requires forall i :: 0 <= i < |decls| ==> ParserDecl(decls[i]).Ok?
    ensures ParserLoads(decls) == [ParserDecl(decls[0]).value] + ParserLoads(decls[1..])
  {
    var all := ParserLoads(decls);
    var ds := ParserLoads(decls[1..]);
    forall i | 1 <= i < |decls|
      ensures all[i] == ds[i - 1]
    {
      assert decls[i] == decls[1..][i - 1];
    }
  }

  /** load_parser_rules: the loop over the parser declarations, remembering the first name as
      the root; no declaration at all is an Error. */
  method LoadParserRules(result: Result<Token>) returns (o: Either<(string, map<string, ParserRule>), LoadError>)
    ensures o.Ok? <==> (ParserRulesFrom(None, map[], ParserDecls(result)).Ok? &&
      ParserDecls(result) != [])
    ensures o.Ok? ==> (Some(o.value.0), o.value.1) == ParserRulesFrom(None, map[], ParserDecls(result)).value
    ensures o.Ok? ==> o.value.0 in o.value.1
    ensures ParserDecls(result) == [] ==> o == Err(Fault("no root rule name found"))
    ensures o.Ok? ==> ParserDecl(ParserDecls(result)[0]).Ok? && o.value.0 == ParserDecl(ParserDecls(result)[0]).value.0
    ensures o.Ok? ==>
      (forall i :: 0 <= i < |ParserDecls(result)| ==> ParserDecl(ParserDecls(result)[i]).Ok?) &&
      Declares(map[], ParserLoads(ParserDecls(result)), o.value.1)
    ensures ParserRulesFrom(None, map[], ParserDecls(result)).Err? ==>
      o == Err(ParserRulesFrom(None, map[], ParserDecls(result)).error)
  {
    var decls := ParserDecls(result);
    var rootRuleName: Option<string> := None;
    var rules: map<string, ParserRule> := map[];
    for i := 0 to |decls|
      invariant ParserRulesFrom(None, map[], decls) == ParserRulesFrom(rootRuleName, rules, decls[i..])
      invariant rootRuleName.None? <==> i == 0
      invariant rootRuleName.Some? ==> rootRuleName.value in rules
    {
      assert decls[i..][0] == decls[i] && decls[i..][1..] == decls[i + 1..];
      match ParserDecl(decls[i])
      case Err(e) =>
        return Err(e);
      case Ok(d) =>
        if rootRuleName.None? {
          rootRuleName := Some(d.0);
        }
        rules := rules[d.0 := d.1];
    }
    if rootRuleName.None? {
      return Err(Fault("no root rule name found"));
    }
    o := Ok((rootRuleName.value, rules));
    ParserRulesFromDeclares(None, map[], decls);
  }

  /** The parser of the grammar language, once its lexer rules have loaded. */
  function GrammarParser(fuel: nat): (o: Loaded<Parser>)
    ensures o.Loaded? <==> GrammarLexerRules(fuel).Loaded?
    ensures o.Loaded? ==> o.value.root == "root" && o.value.root in o.value.rules
  {
    match GrammarLexerRules(fuel)
    case LoadFailed(e) => LoadFailed(e)
    case LoadAborted(reason) => LoadAborted(reason)
    case Loaded(lexerRules) => Loaded(Parser("root", GrammarParserRules(), lexerRules))
  }

  /** The grammar text parsed by the grammar parser; a failure of the parse is raised. */
  function ParseGrammar(grammar: string, fuel: nat): (o: Loaded<Result<Token>>)
    ensures o.Loaded? ==> GrammarParser(fuel).Loaded? && Parse(GrammarParser(fuel).value, grammar, fuel) == Parsed(o.value)
    ensures GrammarParser(fuel).Loaded? && Parse(GrammarParser(fuel).value, grammar, fuel).ParseFailed? ==>
      o == LoadFailed(Parse(GrammarParser(fuel).value, grammar, fuel).error)
    ensures GrammarParser(fuel).Loaded? && Parse(GrammarParser(fuel).value, grammar, fuel).Parsed? ==>
      o == Loaded(Parse(GrammarParser(fuel).value, grammar, fuel).result)
    ensures GrammarParser(fuel).LoadFailed? ==> o == LoadFailed(GrammarParser(fuel).error)
  {
    match GrammarParser(fuel)
    case LoadFailed(e) => LoadFailed(e)
    case LoadAborted(reason) => LoadAborted(reason)
    case Loaded(p) =>
      match Parse(p, grammar, fuel)
      case Parsed(r) => Loaded(r)
      case ParseFailed(e) => LoadFailed(e)
      case ParseAborted(reason) => LoadAborted(reason)
  }

  /** load_parser: parse the grammar, load its lexer declarations and then its parser
      declarations, and assemble the parser whose root is the first parser declaration. */
  method LoadParser(grammar: string, fuel: nat) returns (o: Loaded<Parser>)
    ensures o.Loaded? ==> ParseGrammar(grammar, fuel).Loaded?
    ensures o.Loaded? ==> LexerRulesFrom(EmptyMap(), LexerDecls(ParseGrammar(grammar, fuel).value), fuel).Loaded?
    ensures o.Loaded? ==> ParserRulesFrom(None, map[], ParserDecls(ParseGrammar(grammar, fuel).value)).Ok?
    ensures o.Loaded? ==> o.value.lexer == LexerRulesFrom(EmptyMap(), LexerDecls(ParseGrammar(grammar, fuel).value), fuel).value
    ensures o.Loaded? ==> (Some(o.value.root), o.value.rules) == ParserRulesFrom(None, map[], ParserDecls(ParseGrammar(grammar, fuel).value)).value
    ensures o.Loaded? ==> o.value.root in o.value.rules && ValidMap(o.value.lexer)
    ensures ParseGrammar(grammar, fuel).LoadFailed? ==> o == LoadFailed(ParseGrammar(grammar, fuel).error)
    ensures ParseGrammar(grammar, fuel).Loaded? ==> NoRootFails(ParseGrammar(grammar, fuel).value, fuel, o)
    ensures ParseGrammar(grammar, fuel).Loaded? ==> LoadsWhenPartsLoad(ParseGrammar(grammar, fuel).value, fuel, o)
    ensures ParseGrammar(grammar, fuel).Loaded? ==> LexerFailurePassed(ParseGrammar(grammar, fuel).value, fuel, o)
    ensures ParseGrammar(grammar, fuel).Loaded? ==> ParserFailurePassed(ParseGrammar(grammar, fuel).value, fuel, o)
  {
    var parsed := ParseGrammar(grammar, fuel);
    if parsed.LoadFailed? {
      return LoadFailed(parsed.error);
    } else if parsed.LoadAborted? {
      return LoadAborted(parsed.reason);
    }
    var lexerRules := LoadLexerRules(parsed.value, fuel);
    if lexerRules.LoadFailed? {
      return LoadFailed(lexerRules.error);
    } else if lexerRules.LoadAborted? {
      return LoadAborted(lexerRules.reason);
    }
    var parserRules := LoadParserRules(parsed.value);
    if parserRules.Err? {
      return LoadFailed(parserRules.error);
    }
    o := Loaded(Parser(parserRules.value.0, parserRules.value.1, lexerRules.value));
  }

  /** A grammar whose lexer declarations load and whose parser declarations, of which there is
      at least one, all load gives a parser. */
  predicate LoadsWhenPartsLoad(r: Result<Token>, fuel: nat, o: Loaded<Parser>) {
    LexerRulesFrom(EmptyMap(), LexerDecls(r), fuel).Loaded? &&
    ParserRulesFrom(None, map[], ParserDecls(r)).Ok? && ParserDecls(r) != [] ==>
      o.Loaded?
  }

  /** A lexer declaration that fails to load makes the whole grammar fail with its error. */
  predicate LexerFailurePassed(r: Result<Token>, fuel: nat, o: Loaded<Parser>) {
    LexerRulesFrom(EmptyMap(), LexerDecls(r), fuel).LoadFailed? ==>
      o == LoadFailed(LexerRulesFrom(EmptyMap(), LexerDecls(r), fuel).error)
  }

  /** Once the lexer declarations load, a parser declaration that fails to load makes the whole
      grammar fail with its error. */
  predicate ParserFailurePassed(r: Result<Token>, fuel: nat, o: Loaded<Parser>) {
    LexerRulesFrom(EmptyMap(), LexerDecls(r), fuel).Loaded? &&
    ParserRulesFrom(None, map[], ParserDecls(r)).Err? ==>
      o == LoadFailed(ParserRulesFrom(None, map[], ParserDecls(r)).error)
  }

  /** A grammar whose lexer declarations load but which declares no parser rule is an Error. */
  predicate NoRootFails(r: Result<Token>, fuel: nat, o: Loaded<Parser>) {
    LexerRulesFrom(EmptyMap(), LexerDecls(r), fuel).Loaded? && ParserDecls(r) == [] ==>
      o == LoadFailed(Fault("no root rule name found"))
  }
}
