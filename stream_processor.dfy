/** The stream specialisation of the processor (core/stream_processor.py): the state is a
    sequence of items, leaf rules look at its head, and UntilEmpty is While on "not empty". */
module StreamProcessor {
  import opened Results
  import opened Processor

  /** Stream.empty */
  predicate IsEmpty<T>(s: seq<T>) {
    |s| == 0
  }

  /** Stream.head: the first item, or an error on an empty stream. */
  function Head<T>(s: seq<T>): (o: Either<T, Error<seq<T>>>)
    ensures o.Ok? <==> !IsEmpty(s)
    ensures o.Ok? ==> o.value == s[0]
  {
    if IsEmpty(s) then Err(Fault("getting head from empty state ")) else Ok(s[0])
  }

  /** Stream.tail: all but the first item, or an error on an empty stream. */
  function Tail<T>(s: seq<T>): (o: Either<seq<T>, Error<seq<T>>>)
    ensures o.Ok? <==> !IsEmpty(s)
    ensures o.Ok? ==> |o.value| == |s| - 1
  {
    if IsEmpty(s) then Err(Fault("getting tail from empty state ")) else Ok(s[1..])
  }

  /** head and tail of a non-empty stream put back together give the stream. */
  lemma HeadTail<T>(s: seq<T>)
    requires !IsEmpty(s)
    ensures [Head(s).value] + Tail(s).value == s
  {
  }

  /** Stream.from_result: the values of a result, topmost first, left to right. */
  function FromResult<T>(r: Result<T>): (s: seq<T>)
    ensures s == TopValues(r)
  {
    AllValuesAreTopValues(r);
    AllValues(r)
  }

  /** HeadRule.apply: fail on an empty stream, fail without consuming when the predicate
      rejects the head, otherwise give result(head) and move to the tail. */
  function HeadApply<V, T>(pred: T -> bool, result: T -> Result<V>, s: seq<T>): (o: Outcome<V, seq<T>>)
    ensures !o.OutOfFuel?
    ensures o.Matched? <==> |s| > 0 && pred(s[0])
    ensures o.Matched? ==> o.result == result(s[0]) && o.state == s[1..] && |o.state| == |s| - 1
    ensures o.Failed? ==> o.error.at == Some(s) && o.error.children == []
  {
    if IsEmpty(s) then Failed(Error(Some("failed "), None, Some(s), []))
    else if !pred(Head(s).value) then Failed(Error(Some("failed "), None, Some(s), []))
    else Matched(result(Head(s).value), Tail(s).value)
  }

  /** Literal.pred */
  predicate LiteralPred<T(==)>(value: T, head: T) {
    head == value
  }

  /** UntilEmpty.cond */
  predicate NonEmpty<T>(s: seq<T>) {
    !IsEmpty(s)
  }

  /** The one-item step: the head as a leaf result, and the tail. */
  function Step<T>(s: seq<T>): (o: Outcome<T, seq<T>>)
    ensures o.Matched? <==> |s| > 0
    ensures o.Matched? ==> o.result == Leaf(s[0]) && o.state == s[1..]
  {
    match Head(s)
    case Err(e) => Failed(e)
    case Ok(h) => Matched(Leaf(h), Tail(s).value)
  }

  /** A stream processor whose leaf rules are Literals producing a leaf of the matched item. */
  function StreamSem<T(==)>(): Sem<T, T, seq<T>> {
    Sem((l: T, s: seq<T>) => HeadApply((h: T) => LiteralPred(l, h), (h: T) => Leaf(h), s), NonEmpty, Step)
  }

  /** UntilEmpty, as the While rule of a stream processor. */
  function UntilEmpty<L>(child: Rule<L>): Rule<L> {
    While(child)
  }

  /** A Literal matches exactly when the head equals its value, consuming that one item. */
  lemma LiteralMatches<T>(p: Processor<T>, value: T, s: seq<T>, fuel: nat)
    ensures Apply(StreamSem(), p, HeadRule(value), s, fuel).Matched? <==> |s| > 0 && s[0] == value
    ensures Apply(StreamSem(), p, HeadRule(value), s, fuel).Matched? ==>
      Apply(StreamSem(), p, HeadRule(value), s, fuel) == Matched(Leaf(value), s[1..])
    ensures Apply(StreamSem(), p, HeadRule(value), s, fuel).Failed? ==> Apply(StreamSem(), p, HeadRule(value), s, fuel).error.at == Some(s)
  {
  }

  /** A successful UntilEmpty leaves the stream empty, and every item it consumed was consumed
      by one application of the child. */
  lemma UntilEmptyConsumesAll<L, V, T>(sem: Sem<L, V, seq<T>>, p: Processor<L>, c: Rule<L>, s: seq<T>, fuel: nat)
    requires forall t: seq<T> :: sem.cond(t) <==> |t| > 0
    ensures Apply(sem, p, UntilEmpty(c), s, fuel).Matched? ==> Apply(sem, p, UntilEmpty(c), s, fuel).state == []
  {
    var o := Apply(sem, p, UntilEmpty(c), s, fuel);
    if o.Matched? {
      assert !sem.cond(o.state);
      CondIsNonEmpty(sem, o.state);
    }
  }

  lemma CondIsNonEmpty<L, V, T>(sem: Sem<L, V, seq<T>>, x: seq<T>)
    requires forall t: seq<T> :: sem.cond(t) <==> |t| > 0
    ensures sem.cond(x) <==> |x| > 0
  {
  }

  /** A stream semantics conserves items when every match of a leaf rule, and of the one-item
      step, gives as its values exactly the items it consumed. */
  ghost predicate Conserving<L(!new), T(!new)>(sem: Sem<L, T, seq<T>>) {
    (forall l: L, s: seq<T> :: sem.leaf(l, s).Matched? ==> Consumed(sem.leaf(l, s), s)) &&
    (forall s: seq<T> :: sem.step(s).Matched? ==> Consumed(sem.step(s), s))
  }

  /** A match consumed, from s, exactly the values of its result, in order, and those values
      sit at the leaves of the result. */
  ghost predicate Consumed<T>(o: Outcome<T, seq<T>>, s: seq<T>) {
    o.Matched? ==> TopValues(o.result) + o.state == s && ValuesAtLeaves(o.result)
  }

  /** The head rules of a stream processor that give the head as a leaf conserve items. */
  lemma LeafHeadConserves<T>(pred: T -> bool, s: seq<T>)
    ensures Consumed(HeadApply(pred, (h: T) => Leaf(h), s), s)
  {
    var o := HeadApply(pred, (h: T) => Leaf(h), s);
    if o.Matched? {
      assert TopValues(o.result) == [s[0]];
      assert [s[0]] + s[1..] == s;
    }
  }

  lemma StepConserves<T>(s: seq<T>)
    ensures Consumed(Step(s), s)
  {
    if |s| > 0 {
      assert [s[0]] + s[1..] == s;
    }
  }

  lemma LeafConserves<L(!new), T(!new)>(sem: Sem<L, T, seq<T>>, l: L, s: seq<T>)
    requires Conserving(sem)
    ensures Consumed(sem.leaf(l, s), s)
  {
  }

  lemma StepOfConserves<L(!new), T(!new)>(sem: Sem<L, T, seq<T>>, s: seq<T>)
    requires Conserving(sem)
    ensures Consumed(sem.step(s), s)
  {
  }

  lemma PrependConsumed<T>(x: Result<T>, s: seq<T>, t: seq<T>, o: Outcome<T, seq<T>>)
    requires o.Matched? ==> o.result.value.None?
    requires TopValues(x) + t == s && ValuesAtLeaves(x)
    requires Consumed(o, t)
    ensures Consumed(Prepend(x, o), s)
  {
    if o.Matched? {
      var r := o.result;
      assert TopValuesAll([x] + r.children) == TopValues(x) + TopValuesAll(r.children) by {
        assert ([x] + r.children)[0] == x && ([x] + r.children)[1..] == r.children;
      }
    }
  }

  lemma AsChildConsumed<T>(o: Outcome<T, seq<T>>, s: seq<T>)
    requires Consumed(o, s)
    ensures o.Matched? ==> Consumed(Matched(AsChild(o.result), o.state), s)
  {
    if o.Matched? {
      assert TopValuesAll([o.result]) == TopValues(o.result) + TopValuesAll([o.result][1..]);
      assert [o.result][1..] == [];
    }
  }

  /** Every match of a conserving stream processor gives, as the values of its result, exactly
      the items it consumed, in order: a rule never invents, drops or reorders an item. */
  lemma {:induction false} ApplyConserves<L(!new), T(!new)>(sem: Sem<L, T, seq<T>>, p: Processor<L>, r: Rule<L>, s: seq<T>, fuel: nat)
    requires Conserving(sem)
    ensures Consumed(Apply(sem, p, r, s, fuel), s)
    decreases fuel, RuleSize(r)
  {
    match r
    case HeadRule(l) => LeafConserves(sem, l, s);
    case Ref(name) =>
      ApplyNameConserves(sem, p, name, s, fuel);
      AsChildConsumed(ApplyName(sem, p, name, s, fuel), s);
    case And(cs) => AndConserves(sem, p, cs, s, fuel);
    case Or(cs) => OrConserves(sem, p, cs, s, fuel);
    case ZeroOrMore(c) => StarConserves(sem, p, c, s, fuel);
    case OneOrMore(c) =>
      ApplyConserves(sem, p, c, s, fuel);
      var o := Apply(sem, p, c, s, fuel);
      if o.Matched? {
        StarConserves(sem, p, c, o.state, fuel);
        PrependConsumed(o.result, s, o.state, Star(sem, p, c, o.state, fuel));
      }
    case ZeroOrOne(c) =>
      ApplyConserves(sem, p, c, s, fuel);
      AsChildConsumed(Apply(sem, p, c, s, fuel), s);
    case While(c) => WhileConserves(sem, p, c, s, fuel);
    case Not(c) => StepOfConserves(sem, s);
  }

  lemma {:induction false} ApplyNameConserves<L(!new), T(!new)>(sem: Sem<L, T, seq<T>>, p: Processor<L>, name: string, s: seq<T>, fuel: nat)
    requires Conserving(sem)
    ensures Consumed(ApplyName(sem, p, name, s, fuel), s)
    decreases fuel, 0
  {
    if name in p.rules && fuel > 0 {
      ApplyConserves(sem, p, p.rules[name], s, fuel - 1);
      var o := Apply(sem, p, p.rules[name], s, fuel - 1);
      if o.Matched? {
        assert ApplyName(sem, p, name, s, fuel) == Matched(Simplify(WithRuleName(o.result, name)), o.state);
        SimplifyKeepsTopValues(WithRuleName(o.result, name));
        SimplifyKeepsValuesAtLeaves(WithRuleName(o.result, name));
      }
    }
  }

  lemma {:induction false} AndConserves<L(!new), T(!new)>(sem: Sem<L, T, seq<T>>, p: Processor<L>, cs: seq<Rule<L>>, s: seq<T>, fuel: nat)
    requires Conserving(sem)
    ensures Consumed(AndFrom(sem, p, cs, s, fuel), s)
    decreases fuel, RulesSize(cs)
  {
    if cs != [] {
      ApplyConserves(sem, p, cs[0], s, fuel);
      var o := Apply(sem, p, cs[0], s, fuel);
      if o.Matched? {
        AndConserves(sem, p, cs[1..], o.state, fuel);
        PrependConsumed(o.result, s, o.state, AndFrom(sem, p, cs[1..], o.state, fuel));
      }
    }
  }

  lemma {:induction false} OrConserves<L(!new), T(!new)>(sem: Sem<L, T, seq<T>>, p: Processor<L>, cs: seq<Rule<L>>, s: seq<T>, fuel: nat)
    requires Conserving(sem)
    ensures Consumed(OrFrom(sem, p, cs, s, fuel), s)
    decreases fuel, RulesSize(cs)
  {
    if cs != [] {
      ApplyConserves(sem, p, cs[0], s, fuel);
      AsChildConsumed(Apply(sem, p, cs[0], s, fuel), s);
      OrConserves(sem, p, cs[1..], s, fuel);
    }
  }

  lemma {:induction false} StarConserves<L(!new), T(!new)>(sem: Sem<L, T, seq<T>>, p: Processor<L>, c: Rule<L>, s: seq<T>, fuel: nat)
    requires Conserving(sem)
    ensures Consumed(Star(sem, p, c, s, fuel), s)
    decreases fuel, RuleSize(c) + 1
  {
    ApplyConserves(sem, p, c, s, fuel);
    var o := Apply(sem, p, c, s, fuel);
    if o.Matched? && fuel > 0 {
      StarConserves(sem, p, c, o.state, fuel - 1);
      PrependConsumed(o.result, s, o.state, Star(sem, p, c, o.state, fuel - 1));
    }
  }

  lemma {:induction false} WhileConserves<L(!new), T(!new)>(sem: Sem<L, T, seq<T>>, p: Processor<L>, c: Rule<L>, s: seq<T>, fuel: nat)
    requires Conserving(sem)
    ensures Consumed(WhileFrom(sem, p, c, s, fuel), s)
    decreases fuel, RuleSize(c) + 1
  {
    if sem.cond(s) {
      ApplyConserves(sem, p, c, s, fuel);
      var o := Apply(sem, p, c, s, fuel);
      if o.Matched? && fuel > 0 {
        WhileConserves(sem, p, c, o.state, fuel - 1);
        PrependConsumed(o.result, s, o.state, WhileFrom(sem, p, c, o.state, fuel - 1));
      }
    }
  }

  /** The literal stream processor conserves items. */
  lemma StreamSemConserves<T(!new)>()
    ensures Conserving(StreamSem<T>())
  {
    var sem := StreamSem<T>();
    forall l: T, s: seq<T>
      ensures sem.leaf(l, s).Matched? ==> Consumed(sem.leaf(l, s), s)
    {
      LeafHeadConserves((h: T) => LiteralPred(l, h), s);
    }
    forall s: seq<T>
      ensures sem.step(s).Matched? ==> Consumed(sem.step(s), s)
    {
      StepConserves(s);
    }
  }

  /** The processor of the unit tests: rule 'a' is UntilEmpty over Literal(1). */
  function OnesProcessor(): Processor<int> {
    Processor("a", map["a" := UntilEmpty(HeadRule(1))])
  }

  /** One iteration of the unit tests' loop: a leading 1 is taken as a leaf. */
  lemma OnesStep(s: seq<int>, fuel: nat)
    requires |s| > 0 && s[0] == 1 && fuel > 0
    ensures WhileFrom(StreamSem(), OnesProcessor(), HeadRule(1), s, fuel)
      == Prepend(Leaf(1), WhileFrom(StreamSem(), OnesProcessor(), HeadRule(1), s[1..], fuel - 1))
  {
    LiteralMatches(OnesProcessor(), 1, s, fuel);
  }

  /** The unit tests' loop fails on a stream whose head is not 1. */
  lemma OnesStop(s: seq<int>, fuel: nat)
    requires |s| > 0 && s[0] != 1
    ensures WhileFrom(StreamSem(), OnesProcessor(), HeadRule(1), s, fuel).Failed?
  {
    LiteralMatches(OnesProcessor(), 1, s, fuel);
  }

  /** [1, 1, 1] is consumed whole, giving one leaf per item under the rule name. */
  lemma OnesAccepted()
    ensures ApplyRoot(StreamSem(), OnesProcessor(), [1, 1, 1], 5)
      == Matched(Result(None, Some("a"), [Leaf(1), Leaf(1), Leaf(1)]), [])
  {
    var sem := StreamSem<int>();
    var p := OnesProcessor();
    var c: Rule<int> := HeadRule(1);
    assert [1, 1, 1][1..] == [1, 1];
    assert [1, 1][1..] == [1];
    assert [1][1..] == [];
    assert WhileFrom(sem, p, c, [], 1) == Matched(Node([]), []);
    OnesStep([1], 2);
    assert WhileFrom(sem, p, c, [1], 2) == Matched(Node([Leaf(1)]), []);
    OnesStep([1, 1], 3);
    assert WhileFrom(sem, p, c, [1, 1], 3) == Matched(Node([Leaf(1), Leaf(1)]), []);
    OnesStep([1, 1, 1], 4);
    var three := [Leaf(1), Leaf(1), Leaf(1)];
    assert WhileFrom(sem, p, c, [1, 1, 1], 4) == Matched(Node(three), []);
    assert Apply(sem, p, p.rules["a"], [1, 1, 1], 4) == Matched(Node(three), []);
    assert Simplify(WithRuleName(Node(three), "a")) == Result(None, Some("a"), three);
  }

  /** A stream is rejected when the unit tests' loop fails on it. */
  lemma OnesLoopFails(s: seq<int>)
    requires WhileFrom(StreamSem(), OnesProcessor(), HeadRule(1), s, 9).Failed?
    ensures ApplyRoot(StreamSem(), OnesProcessor(), s, 10).Failed?
  {
    var p := OnesProcessor();
    assert Apply(StreamSem(), p, p.rules["a"], s, 9).Failed?;
  }

  /** [1, 1, 1, 2] is rejected: the loop takes the 1s and then fails on 2. */
  lemma OnesRejectedAfterOnes()
    ensures ApplyRoot(StreamSem(), OnesProcessor(), [1, 1, 1, 2], 10).Failed?
  {
    assert [1, 1, 1, 2][1..] == [1, 1, 2];
    assert [1, 1, 2][1..] == [1, 2];
    assert [1, 2][1..] == [2];
    OnesStop([2], 6);
    OnesStep([1, 2], 7);
    OnesStep([1, 1, 2], 8);
    OnesStep([1, 1, 1, 2], 9);
    OnesLoopFails([1, 1, 1, 2]);
  }

  /** [1, 1, 1, 2] and [2] are rejected: the child fails on 2 while the stream is not empty. */
  lemma OnesRejected()
    ensures ApplyRoot(StreamSem(), OnesProcessor(), [1, 1, 1, 2], 10).Failed?
    ensures ApplyRoot(StreamSem(), OnesProcessor(), [2], 10).Failed?
  {
    OnesRejectedAfterOnes();
    OnesStop([2], 9);
    OnesLoopFails([2]);
  }
}
