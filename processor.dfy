/** The combinator interpreter of core/processor.py: rules, the processor that names them,
    and what applying a rule to a state yields. */
module Processor {
  import opened Results

  /** The rule family. `HeadRule` stands for a leaf rule whose behaviour the specialisation
      supplies (a stream head rule); `Not` is the lexer's negation, kept in the same tree
      because its child is a rule; `While` is the loop whose condition the specialisation supplies. */
  datatype Rule<L> =
    | Ref(name: string)
    | And(children: seq<Rule<L>>)
    | Or(children: seq<Rule<L>>)
    | ZeroOrMore(child: Rule<L>)
    | OneOrMore(child: Rule<L>)
    | ZeroOrOne(child: Rule<L>)
    | While(child: Rule<L>)
    | Not(child: Rule<L>)
    | HeadRule(leaf: L)

  /** A processor: the name of its root rule and its rules by name. */
  datatype Processor<L> = Processor(root: string, rules: map<string, Rule<L>>)

  /** What applying a rule yields: a result and the new state, a raised `Error`, or
      `OutOfFuel`, standing for a computation that does not finish (unbounded `Ref`
      recursion or a repetition whose child consumes nothing). */
  datatype Outcome<V, S> = Matched(result: Result<V>, state: S) | Failed(error: Error<S>) | OutOfFuel

  /** What a specialisation supplies: the behaviour of its leaf rules, the condition of
      `While`, and the one-item step `Not` takes when its child fails. */
  datatype Sem<!L, V, !S> = Sem(leaf: (L, S) -> Outcome<V, S>, cond: S -> bool, step: S -> Outcome<V, S>)

  function RuleSize<L>(r: Rule<L>): nat {
    match r
    case And(cs) => 1 + RulesSize(cs)
    case Or(cs) => 1 + RulesSize(cs)
    case ZeroOrMore(c) => 2 + RuleSize(c)
    case OneOrMore(c) => 2 + RuleSize(c)
    case ZeroOrOne(c) => 2 + RuleSize(c)
    case While(c) => 2 + RuleSize(c)
    case Not(c) => 2 + RuleSize(c)
    case _ => 1
  }

  function RulesSize<L>(cs: seq<Rule<L>>): nat {
    if cs == [] then 0 else 1 + RuleSize(cs[0]) + RulesSize(cs[1..])
  }

  /** ResultAndState.as_child_result, passed through a failure unchanged. */
  function Nest<V, S>(o: Outcome<V, S>): Outcome<V, S> {
    match o
    case Matched(x, t) => Matched(AsChild(x), t)
    case _ => o
  }

  /** A failure re-raised as a `RuleError` at the state the rule started from. */
  function Anchor<V, S>(s: S, o: Outcome<V, S>): Outcome<V, S> {
    match o
    case Failed(e) => Failed(RuleFault(s, [e]))
    case _ => o
  }

  /** Puts one more child result in front of a sequence result. */
  function Prepend<V, S>(x: Result<V>, o: Outcome<V, S>): Outcome<V, S> {
    match o
    case Matched(r, t) => Matched(Node([x] + r.children), t)
    case _ => o
  }

  /** Puts child results already collected in front of a sequence result. */
  function PrependAll<V, S>(xs: seq<Result<V>>, o: Outcome<V, S>): Outcome<V, S> {
    match o
    case Matched(r, t) => Matched(Node(xs + r.children), t)
    case _ => o
  }

  /** Puts branch errors already collected in front of the errors of a failed `Or`. */
  function PrependErrors<V, S>(es: seq<Error<S>>, o: Outcome<V, S>): Outcome<V, S> {
    match o
    case Failed(f) => Failed(f.(children := es + f.children))
    case _ => o
  }

  /** Rule.apply for every rule of the family. */
  function Apply<L, V, S>(sem: Sem<L, V, S>, p: Processor<L>, r: Rule<L>, s: S, fuel: nat): Outcome<V, S>
    decreases fuel, RuleSize(r)
  {
    match r
    case HeadRule(l) => sem.leaf(l, s)
    case Ref(name) => Nest(ApplyName(sem, p, name, s, fuel))
    case And(cs) => Anchor(s, AndFrom(sem, p, cs, s, fuel))
    case Or(cs) => OrFrom(sem, p, cs, s, fuel)
    case ZeroOrMore(c) => Star(sem, p, c, s, fuel)
    case OneOrMore(c) =>
      (match Apply(sem, p, c, s, fuel)
       case Matched(x, t) => Prepend(x, Star(sem, p, c, t, fuel))
       case Failed(e) => Failed(RuleFault(s, [e]))
       case OutOfFuel => OutOfFuel)
    case ZeroOrOne(c) =>
      (match Apply(sem, p, c, s, fuel)
       case Matched(x, t) => Matched(AsChild(x), t)
       case Failed(_) => Matched(Node([]), s)
       case OutOfFuel => OutOfFuel)
    case While(c) => WhileFrom(sem, p, c, s, fuel)
    case Not(c) =>
      (match Apply(sem, p, c, s, fuel)
       case Matched(_, _) => Failed(StateFault("Not ", s))
       case Failed(_) => sem.step(s)
       case OutOfFuel => OutOfFuel)
  }

  /** Processor.apply_rule_name_to_state: look the rule up, apply it, tag the result with
      the name and simplify it; a failure of the rule is re-tagged with the name, but the
      failure for an unknown name is not. Every lookup costs one unit of fuel. */
  function ApplyName<L, V, S>(sem: Sem<L, V, S>, p: Processor<L>, name: string, s: S, fuel: nat): (o: Outcome<V, S>)
    ensures name !in p.rules ==> o.Failed? && o.error.at == Some(s) && o.error.ruleName.None?
    ensures o.Matched? ==> o.result.ruleName == Some(name)
    ensures o.Failed? && name in p.rules ==> o.error.ruleName == Some(name)
    decreases fuel, 0
  {
    if name !in p.rules then Failed(StateFault("unknown rule " + name, s))
    else if fuel == 0 then OutOfFuel
    else
      match Apply(sem, p, p.rules[name], s, fuel - 1)
      case Matched(x, t) => Matched(Simplify(WithRuleName(x, name)), t)
      case Failed(e) => Failed(ErrorWithRuleName(e, name))
      case OutOfFuel => OutOfFuel
  }

  /** Processor.apply_root_to_state */
  function ApplyRoot<L, V, S>(sem: Sem<L, V, S>, p: Processor<L>, s: S, fuel: nat): (o: Outcome<V, S>)
    ensures o.Matched? ==> o.result.ruleName == Some(p.root)
    ensures p.root !in p.rules ==> o.Failed?
  {
    ApplyName(sem, p, p.root, s, fuel)
  }

  /** The children of `And` applied in sequence from state s, each to the state the previous
      one left; a child's failure is passed up unchanged. */
  function AndFrom<L, V, S>(sem: Sem<L, V, S>, p: Processor<L>, cs: seq<Rule<L>>, s: S, fuel: nat): (o: Outcome<V, S>)
    ensures o.Matched? ==> o.result.value.None? && o.result.ruleName.None? && |o.result.children| == |cs|
    decreases fuel, RulesSize(cs)
  {
    if cs == [] then Matched(Node([]), s)
    else
      match Apply(sem, p, cs[0], s, fuel)
      case Matched(x, t) => Prepend(x, AndFrom(sem, p, cs[1..], t, fuel))
      case Failed(e) => Failed(e)
      case OutOfFuel => OutOfFuel
  }

  /** The branches of `Or`, each tried on the same state; the first that matches is nested
      as the only child, and when all fail the error holds every branch error in order. */
  function OrFrom<L, V, S>(sem: Sem<L, V, S>, p: Processor<L>, cs: seq<Rule<L>>, s: S, fuel: nat): (o: Outcome<V, S>)
    ensures o.Matched? ==> |o.result.children| == 1 && o.result.value.None? && o.result.ruleName.None?
    ensures o.Failed? ==> o.error == RuleFault(s, o.error.children) && |o.error.children| == |cs|
    decreases fuel, RulesSize(cs)
  {
    if cs == [] then Failed(RuleFault(s, []))
    else
      match Apply(sem, p, cs[0], s, fuel)
      case Matched(x, t) => Matched(AsChild(x), t)
      case Failed(e) => PrependErrors([e], OrFrom(sem, p, cs[1..], s, fuel))
      case OutOfFuel => OutOfFuel
  }

  /** `ZeroOrMore`: the child applied until it fails; each further iteration costs one unit of fuel. */
  function Star<L, V, S>(sem: Sem<L, V, S>, p: Processor<L>, c: Rule<L>, s: S, fuel: nat): (o: Outcome<V, S>)
    ensures !o.Failed?
    ensures o.Matched? ==> o.result.value.None? && o.result.ruleName.None?
    decreases fuel, RuleSize(c) + 1
  {
    match Apply(sem, p, c, s, fuel)
    case Matched(x, t) => if fuel == 0 then OutOfFuel else Prepend(x, Star(sem, p, c, t, fuel - 1))
    case Failed(_) => Matched(Node([]), s)
    case OutOfFuel => OutOfFuel
  }

  /** `While`: the child applied as long as the condition holds of the current state; a failure
      of the child is anchored at the state it was applied to. */
  function WhileFrom<L, V, S>(sem: Sem<L, V, S>, p: Processor<L>, c: Rule<L>, s: S, fuel: nat): (o: Outcome<V, S>)
    ensures o.Matched? ==> !sem.cond(o.state) && o.result.value.None? && o.result.ruleName.None?
    ensures o.Failed? ==> o.error.at.Some? && sem.cond(o.error.at.value) && o.error.msg.None? && |o.error.children| == 1
    decreases fuel, RuleSize(c) + 1
  {
    if !sem.cond(s) then Matched(Node([]), s)
    else
      match Apply(sem, p, c, s, fuel)
      case Matched(x, t) => if fuel == 0 then OutOfFuel else Prepend(x, WhileFrom(sem, p, c, t, fuel - 1))
      case Failed(e) => Failed(RuleFault(s, [e]))
      case OutOfFuel => OutOfFuel
  }

  lemma PrependAllStep<V, S>(xs: seq<Result<V>>, x: Result<V>, o: Outcome<V, S>)
    ensures PrependAll(xs, Prepend(x, o)) == PrependAll(xs + [x], o)
  {
    if o.Matched? {
      assert xs + ([x] + o.result.children) == (xs + [x]) + o.result.children;
    }
  }

  lemma PrependNothing<V, S>(o: Outcome<V, S>)
    requires o.Matched? ==> o.result.value.None? && o.result.ruleName.None?
    ensures PrependAll([], o) == o
  {
    if o.Matched? {
      assert [] + o.result.children == o.result.children;
    }
  }

  lemma PrependNoErrors<V, S>(o: Outcome<V, S>)
    ensures PrependErrors([], o) == o
  {
    if o.Failed? {
      assert [] + o.error.children == o.error.children;
    }
  }

  lemma PrependErrorsStep<V, S>(es: seq<Error<S>>, e: Error<S>, o: Outcome<V, S>)
    ensures PrependErrors(es, PrependErrors([e], o)) == PrependErrors(es + [e], o)
  {
    if o.Failed? {
      assert es + ([e] + o.error.children) == (es + [e]) + o.error.children;
    }
  }

  /** And.apply: the loop over the children, threading the state and collecting the results. */
  method RunAnd<L, V, S>(sem: Sem<L, V, S>, p: Processor<L>, cs: seq<Rule<L>>, s: S, fuel: nat) returns (o: Outcome<V, S>)
    ensures o == Apply(sem, p, And(cs), s, fuel)
  {
    var childResults: seq<Result<V>> := [];
    var childState := s;
    var i := 0;
    PrependNothing(AndFrom(sem, p, cs, s, fuel));
    while i < |cs|
      invariant 0 <= i <= |cs|
      invariant AndFrom(sem, p, cs, s, fuel) == PrependAll(childResults, AndFrom(sem, p, cs[i..], childState, fuel))
    {
      assert cs[i..][0] == cs[i] && cs[i..][1..] == cs[i + 1..];
      match Apply(sem, p, cs[i], childState, fuel)
      case Matched(x, t) =>
        PrependAllStep(childResults, x, AndFrom(sem, p, cs[i + 1..], t, fuel));
        childResults := childResults + [x];
        childState := t;
        i := i + 1;
      case Failed(e) =>
        return Failed(RuleFault(s, [e]));
      case OutOfFuel =>
        return OutOfFuel;
    }
    assert childResults + [] == childResults;
    o := Matched(Node(childResults), childState);
  }

  /** Or.apply: the loop over the branches, collecting their errors. */
  method RunOr<L, V, S>(sem: Sem<L, V, S>, p: Processor<L>, cs: seq<Rule<L>>, s: S, fuel: nat) returns (o: Outcome<V, S>)
    ensures o == Apply(sem, p, Or(cs), s, fuel)
  {
    var childErrors: seq<Error<S>> := [];
    var i := 0;
    PrependNoErrors(OrFrom(sem, p, cs, s, fuel));
    while i < |cs|
      invariant 0 <= i <= |cs|
      invariant OrFrom(sem, p, cs, s, fuel) == PrependErrors(childErrors, OrFrom(sem, p, cs[i..], s, fuel))
    {
      assert cs[i..][0] == cs[i] && cs[i..][1..] == cs[i + 1..];
      match Apply(sem, p, cs[i], s, fuel)
      case Matched(x, t) =>
        return Matched(AsChild(x), t);
      case Failed(e) =>
        PrependErrorsStep(childErrors, e, OrFrom(sem, p, cs[i + 1..], s, fuel));
        childErrors := childErrors + [e];
        i := i + 1;
      case OutOfFuel =>
        return OutOfFuel;
    }
    assert childErrors + [] == childErrors;
    o := Failed(RuleFault(s, childErrors));
  }

  /** ZeroOrMore.apply: the `while True` loop that stops at the child's first failure. */
  method RunZeroOrMore<L, V, S>(sem: Sem<L, V, S>, p: Processor<L>, c: Rule<L>, s: S, fuel: nat) returns (o: Outcome<V, S>)
    ensures o == Apply(sem, p, ZeroOrMore(c), s, fuel)
  {
    o := RepeatFrom(sem, p, c, [], s, fuel);
    PrependNothing(Star(sem, p, c, s, fuel));
  }

  /** OneOrMore.apply: one application that must succeed, then the same loop as ZeroOrMore. */
  method RunOneOrMore<L, V, S>(sem: Sem<L, V, S>, p: Processor<L>, c: Rule<L>, s: S, fuel: nat) returns (o: Outcome<V, S>)
    ensures o == Apply(sem, p, OneOrMore(c), s, fuel)
  {
    match Apply(sem, p, c, s, fuel)
    case Matched(x, t) =>
      o := RepeatFrom(sem, p, c, [x], t, fuel);
    case Failed(e) =>
      o := Failed(RuleFault(s, [e]));
    case OutOfFuel =>
      o := OutOfFuel;
  }

  /** The repetition loop shared by ZeroOrMore and OneOrMore, starting with results already collected. */
  method RepeatFrom<L, V, S>(sem: Sem<L, V, S>, p: Processor<L>, c: Rule<L>, start: seq<Result<V>>, s: S, fuel: nat)
    returns (o: Outcome<V, S>)
    ensures o == PrependAll(start, Star(sem, p, c, s, fuel))
  {
    var childResults := start;
    var state := s;
    var f := fuel;
    while true
      invariant PrependAll(start, Star(sem, p, c, s, fuel)) == PrependAll(childResults, Star(sem, p, c, state, f))
      decreases f
    {
      match Apply(sem, p, c, state, f)
      case Matched(x, t) =>
        if f == 0 {
          return OutOfFuel;
        }
        PrependAllStep(childResults, x, Star(sem, p, c, t, f - 1));
        childResults := childResults + [x];
        state := t;
        f := f - 1;
      case Failed(_) =>
        assert childResults + [] == childResults;
        return Matched(Node(childResults), state);
      case OutOfFuel =>
        return OutOfFuel;
    }
  }

  /** While.apply: the loop that runs while the condition holds of the current state. */
  method RunWhile<L, V, S>(sem: Sem<L, V, S>, p: Processor<L>, c: Rule<L>, s: S, fuel: nat) returns (o: Outcome<V, S>)
    ensures o == Apply(sem, p, While(c), s, fuel)
  {
    var childResults: seq<Result<V>> := [];
    var state := s;
    var f := fuel;
    PrependNothing(WhileFrom(sem, p, c, s, fuel));
    while sem.cond(state)
      invariant WhileFrom(sem, p, c, s, fuel) == PrependAll(childResults, WhileFrom(sem, p, c, state, f))
      decreases f
    {
      match Apply(sem, p, c, state, f)
      case Matched(x, t) =>
        if f == 0 {
          return OutOfFuel;
        }
        PrependAllStep(childResults, x, WhileFrom(sem, p, c, t, f - 1));
        childResults := childResults + [x];
        state := t;
        f := f - 1;
      case Failed(e) =>
        return Failed(RuleFault(state, [e]));
      case OutOfFuel =>
        return OutOfFuel;
    }
    assert childResults + [] == childResults;
    o := Matched(Node(childResults), state);
  }

  lemma PrependPrependAll<V, S>(x: Result<V>, xs: seq<Result<V>>, o: Outcome<V, S>)
    ensures Prepend(x, PrependAll(xs, o)) == PrependAll([x] + xs, o)
  {
    if o.Matched? {
      assert [x] + (xs + o.result.children) == ([x] + xs) + o.result.children;
    }
  }

  /** A named rule matches exactly when the rule under that name matches with one unit of
      fuel less; its result is that rule's result tagged with the name and simplified, at the
      state the rule left, and its failure is the rule's error tagged with the name. */
  lemma NamedMatch<L, V, S>(sem: Sem<L, V, S>, p: Processor<L>, name: string, s: S, fuel: nat)
    ensures ApplyName(sem, p, name, s, fuel).Matched? <==>
      name in p.rules && fuel > 0 && Apply(sem, p, p.rules[name], s, fuel - 1).Matched?
    ensures name in p.rules && fuel > 0 && Apply(sem, p, p.rules[name], s, fuel - 1).Matched? ==>
      var inner := Apply(sem, p, p.rules[name], s, fuel - 1);
      ApplyName(sem, p, name, s, fuel) == Matched(Simplify(WithRuleName(inner.result, name)), inner.state)
    ensures name in p.rules && fuel > 0 && Apply(sem, p, p.rules[name], s, fuel - 1).Failed? ==>
      ApplyName(sem, p, name, s, fuel) == Failed(ErrorWithRuleName(Apply(sem, p, p.rules[name], s, fuel - 1).error, name))
  {
  }

  /** `Ref` nests the named rule's result, tagged with the name, as its single child. */
  lemma RefNests<L, V, S>(sem: Sem<L, V, S>, p: Processor<L>, name: string, s: S, fuel: nat)
    ensures Apply(sem, p, Ref(name), s, fuel).Matched? <==> ApplyName(sem, p, name, s, fuel).Matched?
    ensures Apply(sem, p, Ref(name), s, fuel).Matched? ==>
      var r := Apply(sem, p, Ref(name), s, fuel).result;
      r.value.None? && r.ruleName.None? && |r.children| == 1 && r.children[0].ruleName == Some(name)
      && Apply(sem, p, Ref(name), s, fuel).state == ApplyName(sem, p, name, s, fuel).state
    ensures name !in p.rules ==> Apply(sem, p, Ref(name), s, fuel) == Failed(StateFault("unknown rule " + name, s))
  {
  }

  /** And threads the state: running a + b is running a, then b from where a stopped,
      with the results of both in order. */
  lemma {:induction false} AndSplit<L, V, S>(sem: Sem<L, V, S>, p: Processor<L>, a: seq<Rule<L>>, b: seq<Rule<L>>, s: S, fuel: nat)
    ensures AndFrom(sem, p, a, s, fuel).Matched? ==>
      AndFrom(sem, p, a + b, s, fuel)
        == PrependAll(AndFrom(sem, p, a, s, fuel).result.children, AndFrom(sem, p, b, AndFrom(sem, p, a, s, fuel).state, fuel))
    ensures !AndFrom(sem, p, a, s, fuel).Matched? ==> AndFrom(sem, p, a + b, s, fuel) == AndFrom(sem, p, a, s, fuel)
    decreases |a|
  {
    if a == [] {
      assert a + b == b;
      PrependNothing(AndFrom(sem, p, b, s, fuel));
    } else {
      assert (a + b)[0] == a[0] && (a + b)[1..] == a[1..] + b;
      match Apply(sem, p, a[0], s, fuel)
      case Matched(x, t) =>
        AndSplit(sem, p, a[1..], b, t, fuel);
        var rest := AndFrom(sem, p, a[1..], t, fuel);
        if rest.Matched? {
          PrependPrependAll(x, rest.result.children, AndFrom(sem, p, b, rest.state, fuel));
        }
      case Failed(_) =>
      case OutOfFuel =>
    }
  }

  /** A child of And that fails after the children before it matched fails the whole And,
      with a RuleError at the state And started from whose only child is that failure. */
  lemma {:induction false} AndChildFailure<L, V, S>(sem: Sem<L, V, S>, p: Processor<L>, cs: seq<Rule<L>>, i: nat, s: S, fuel: nat)
    requires i < |cs|
    requires AndFrom(sem, p, cs[..i], s, fuel).Matched?
    requires Apply(sem, p, cs[i], AndFrom(sem, p, cs[..i], s, fuel).state, fuel).Failed?
    ensures Apply(sem, p, And(cs), s, fuel)
      == Failed(RuleFault(s, [Apply(sem, p, cs[i], AndFrom(sem, p, cs[..i], s, fuel).state, fuel).error]))
  {
    var t := AndFrom(sem, p, cs[..i], s, fuel).state;
    assert cs == cs[..i] + cs[i..];
    AndSplit(sem, p, cs[..i], cs[i..], s, fuel);
    assert cs[i..][0] == cs[i];
  }

  /** Or returns the first branch that matches, nested, and never tries the ones after it. */
  lemma {:induction false} OrPicksFirst<L, V, S>(sem: Sem<L, V, S>, p: Processor<L>, cs: seq<Rule<L>>, i: nat, s: S, fuel: nat)
    requires i < |cs|
    requires forall j :: 0 <= j < i ==> Apply(sem, p, cs[j], s, fuel).Failed?
    requires Apply(sem, p, cs[i], s, fuel).Matched?
    ensures Apply(sem, p, Or(cs), s, fuel) == Nest(Apply(sem, p, cs[i], s, fuel))
  {
    OrFromPicksFirst(sem, p, cs, i, s, fuel);
  }

  lemma {:induction false} OrFromPicksFirst<L, V, S>(sem: Sem<L, V, S>, p: Processor<L>, cs: seq<Rule<L>>, i: nat, s: S, fuel: nat)
    requires i < |cs|
    requires forall j :: 0 <= j < i ==> Apply(sem, p, cs[j], s, fuel).Failed?
    requires Apply(sem, p, cs[i], s, fuel).Matched?
    ensures OrFrom(sem, p, cs, s, fuel) == Nest(Apply(sem, p, cs[i], s, fuel))
    decreases i
  {
    if i > 0 {
      assert Apply(sem, p, cs[0], s, fuel).Failed?;
      forall j | 0 <= j < i - 1
        ensures Apply(sem, p, cs[1..][j], s, fuel).Failed?
      {
        assert cs[1..][j] == cs[j + 1];
      }
      OrFromPicksFirst(sem, p, cs[1..], i - 1, s, fuel);
    }
  }

  /** Or fails exactly when every branch fails on the same state, and its error then holds
      the branch errors, one per branch, in order, at the state it started from. */
  lemma {:induction false} OrFailsIffAllFail<L, V, S>(sem: Sem<L, V, S>, p: Processor<L>, cs: seq<Rule<L>>, s: S, fuel: nat)
    ensures Apply(sem, p, Or(cs), s, fuel).Failed? <==> forall i :: 0 <= i < |cs| ==> Apply(sem, p, cs[i], s, fuel).Failed?
    ensures Apply(sem, p, Or(cs), s, fuel).Failed? ==>
      var e := Apply(sem, p, Or(cs), s, fuel).error;
      e.at == Some(s) && |e.children| == |cs| &&
      forall i :: 0 <= i < |cs| ==> Apply(sem, p, cs[i], s, fuel) == Failed(e.children[i])
    decreases |cs|
  {
    if cs != [] {
      OrFailsIffAllFail(sem, p, cs[1..], s, fuel);
      var rest := OrFrom(sem, p, cs[1..], s, fuel);
      forall i | 1 <= i < |cs|
        ensures cs[i] == cs[1..][i - 1]
      {
      }
      assert Apply(sem, p, Or(cs), s, fuel) == OrFrom(sem, p, cs, s, fuel);
      if Apply(sem, p, cs[0], s, fuel).Failed? && rest.Failed? {
        assert OrFrom(sem, p, cs, s, fuel) == PrependErrors([Apply(sem, p, cs[0], s, fuel).error], rest);
        var e := OrFrom(sem, p, cs, s, fuel).error;
        assert e.children == [Apply(sem, p, cs[0], s, fuel).error] + rest.error.children;
        forall i | 0 <= i < |cs|
          ensures Apply(sem, p, cs[i], s, fuel) == Failed(e.children[i])
        {
          if i > 0 {
            assert e.children[i] == rest.error.children[i - 1];
          }
        }
      }
    }
  }

  /** OneOrMore fails exactly when the first application of its child fails, with a
      RuleError at the starting state whose only child is that failure. */
  lemma OneOrMoreFailsIffFirstFails<L, V, S>(sem: Sem<L, V, S>, p: Processor<L>, c: Rule<L>, s: S, fuel: nat)
    ensures Apply(sem, p, OneOrMore(c), s, fuel).Failed? <==> Apply(sem, p, c, s, fuel).Failed?
    ensures Apply(sem, p, c, s, fuel).Failed? ==>
      Apply(sem, p, OneOrMore(c), s, fuel) == Failed(RuleFault(s, [Apply(sem, p, c, s, fuel).error]))
  {
  }

  /** ZeroOrOne never fails; when its child fails it matches nothing and leaves the state as it was. */
  lemma ZeroOrOneNeverFails<L, V, S>(sem: Sem<L, V, S>, p: Processor<L>, c: Rule<L>, s: S, fuel: nat)
    ensures !Apply(sem, p, ZeroOrOne(c), s, fuel).Failed?
    ensures Apply(sem, p, c, s, fuel).Failed? ==> Apply(sem, p, ZeroOrOne(c), s, fuel) == Matched(Node([]), s)
  {
  }

  /** While, when its condition holds and its child fails, fails at that state; when the
      condition does not hold it matches nothing. */
  lemma WhileSteps<L, V, S>(sem: Sem<L, V, S>, p: Processor<L>, c: Rule<L>, s: S, fuel: nat)
    ensures !sem.cond(s) ==> Apply(sem, p, While(c), s, fuel) == Matched(Node([]), s)
    ensures sem.cond(s) && Apply(sem, p, c, s, fuel).Failed? ==>
      Apply(sem, p, While(c), s, fuel) == Failed(RuleFault(s, [Apply(sem, p, c, s, fuel).error]))
    ensures Apply(sem, p, While(c), s, fuel).Matched? ==> !sem.cond(Apply(sem, p, While(c), s, fuel).state)
  {
  }

  /** Fuel only bounds the computation: an application that finishes with some fuel gives
      the same outcome with any larger amount. */
  lemma {:induction false} ApplyFuel<L, V, S>(sem: Sem<L, V, S>, p: Processor<L>, r: Rule<L>, s: S, fuel: nat, more: nat)
    requires fuel <= more
    requires !Apply(sem, p, r, s, fuel).OutOfFuel?
    ensures Apply(sem, p, r, s, more) == Apply(sem, p, r, s, fuel)
    decreases fuel, RuleSize(r)
  {
    match r
    case HeadRule(_) =>
    case Ref(name) => ApplyNameFuel(sem, p, name, s, fuel, more);
    case And(cs) => AndFromFuel(sem, p, cs, s, fuel, more);
    case Or(cs) => OrFromFuel(sem, p, cs, s, fuel, more);
    case ZeroOrMore(c) => StarFuel(sem, p, c, s, fuel, more);
    case OneOrMore(c) =>
      ApplyFuel(sem, p, c, s, fuel, more);
      if Apply(sem, p, c, s, fuel).Matched? {
        StarFuel(sem, p, c, Apply(sem, p, c, s, fuel).state, fuel, more);
      }
    case ZeroOrOne(c) => ApplyFuel(sem, p, c, s, fuel, more);
    case While(c) => WhileFromFuel(sem, p, c, s, fuel, more);
    case Not(c) => ApplyFuel(sem, p, c, s, fuel, more);
  }

  lemma {:induction false} ApplyNameFuel<L, V, S>(sem: Sem<L, V, S>, p: Processor<L>, name: string, s: S, fuel: nat, more: nat)
    requires fuel <= more
    requires !ApplyName(sem, p, name, s, fuel).OutOfFuel?
    ensures ApplyName(sem, p, name, s, more) == ApplyName(sem, p, name, s, fuel)
    decreases fuel, 0
  {
    if name in p.rules {
      ApplyFuel(sem, p, p.rules[name], s, fuel - 1, more - 1);
    }
  }

  lemma {:induction false} AndFromFuel<L, V, S>(sem: Sem<L, V, S>, p: Processor<L>, cs: seq<Rule<L>>, s: S, fuel: nat, more: nat)
    requires fuel <= more
    requires !AndFrom(sem, p, cs, s, fuel).OutOfFuel?
    ensures AndFrom(sem, p, cs, s, more) == AndFrom(sem, p, cs, s, fuel)
    decreases fuel, RulesSize(cs)
  {
    if cs != [] {
      ApplyFuel(sem, p, cs[0], s, fuel, more);
      if Apply(sem, p, cs[0], s, fuel).Matched? {
        AndFromFuel(sem, p, cs[1..], Apply(sem, p, cs[0], s, fuel).state, fuel, more);
      }
    }
  }

  lemma {:induction false} OrFromFuel<L, V, S>(sem: Sem<L, V, S>, p: Processor<L>, cs: seq<Rule<L>>, s: S, fuel: nat, more: nat)
    requires fuel <= more
    requires !OrFrom(sem, p, cs, s, fuel).OutOfFuel?
    ensures OrFrom(sem, p, cs, s, more) == OrFrom(sem, p, cs, s, fuel)
    decreases fuel, RulesSize(cs)
  {
    if cs != [] {
      ApplyFuel(sem, p, cs[0], s, fuel, more);
      if Apply(sem, p, cs[0], s, fuel).Failed? {
        OrFromFuel(sem, p, cs[1..], s, fuel, more);
      }
    }
  }

  lemma {:induction false} StarFuel<L, V, S>(sem: Sem<L, V, S>, p: Processor<L>, c: Rule<L>, s: S, fuel: nat, more: nat)
    requires fuel <= more
    requires !Star(sem, p, c, s, fuel).OutOfFuel?
    ensures Star(sem, p, c, s, more) == Star(sem, p, c, s, fuel)
    decreases fuel, RuleSize(c) + 1
  {
    ApplyFuel(sem, p, c, s, fuel, more);
    if Apply(sem, p, c, s, fuel).Matched? {
      StarFuel(sem, p, c, Apply(sem, p, c, s, fuel).state, fuel - 1, more - 1);
    }
  }

  lemma {:induction false} WhileFromFuel<L, V, S>(sem: Sem<L, V, S>, p: Processor<L>, c: Rule<L>, s: S, fuel: nat, more: nat)
    requires fuel <= more
    requires !WhileFrom(sem, p, c, s, fuel).OutOfFuel?
    ensures WhileFrom(sem, p, c, s, more) == WhileFrom(sem, p, c, s, fuel)
    decreases fuel, RuleSize(c) + 1
  {
    if sem.cond(s) {
      ApplyFuel(sem, p, c, s, fuel, more);
      if Apply(sem, p, c, s, fuel).Matched? {
        WhileFromFuel(sem, p, c, Apply(sem, p, c, s, fuel).state, fuel - 1, more - 1);
      }
    }
  }
}
