/** The parallel stream rules of core/stream.py: an UntilEmpty rule that anchors its failure
    at the state it started from, and a head rule whose result conversion may itself fail.
    The Stream accessors of core/stream.py are the same as those of core/stream_processor.py
    and are modelled once, by StreamProcessor.Head, StreamProcessor.Tail and StreamProcessor.FromResult. */
module StreamRules {
  import opened Results
  import opened Processor
  import StreamProcessor

  /** The loop of UntilEmpty.apply: apply the child while the stream is not empty, passing
      the child's failure up unchanged. Each iteration after a match costs one unit of fuel. */
  function UntilEmptyLoop<L, V, T>(sem: Sem<L, V, seq<T>>, p: Processor<L>, c: Rule<L>, s: seq<T>, fuel: nat): (o: Outcome<V, seq<T>>)
    ensures o.Matched? ==> o.state == [] && o.result.value.None? && o.result.ruleName.None?
    decreases fuel
  {
    if |s| == 0 then Matched(Node([]), s)
    else
      match Apply(sem, p, c, s, fuel)
      case Matched(x, t) => if fuel == 0 then OutOfFuel else Prepend(x, UntilEmptyLoop(sem, p, c, t, fuel - 1))
      case Failed(e) => Failed(e)
      case OutOfFuel => OutOfFuel
  }

  /** UntilEmpty.apply: the loop, with a failure re-raised as a RuleError at the original state. */
  function UntilEmpty<L, V, T>(sem: Sem<L, V, seq<T>>, p: Processor<L>, c: Rule<L>, s: seq<T>, fuel: nat): (o: Outcome<V, seq<T>>)
    ensures o.Matched? ==> o.state == []
    ensures o.Failed? ==> o.error.at == Some(s) && o.error.msg.None? && |o.error.children| == 1
  {
    Anchor(s, UntilEmptyLoop(sem, p, c, s, fuel))
  }

  /** UntilEmpty.apply as the loop it is, reassigning the child state and collecting results. */
  method RunUntilEmpty<L, V, T>(sem: Sem<L, V, seq<T>>, p: Processor<L>, c: Rule<L>, s: seq<T>, fuel: nat)
    returns (o: Outcome<V, seq<T>>)
    ensures o == UntilEmpty(sem, p, c, s, fuel)
  {
    var childResults: seq<Result<V>> := [];
    var childState := s;
    var f := fuel;
    PrependNothing(UntilEmptyLoop(sem, p, c, s, fuel));
    while |childState| != 0
      invariant UntilEmptyLoop(sem, p, c, s, fuel) == PrependAll(childResults, UntilEmptyLoop(sem, p, c, childState, f))
      decreases f
    {
      match Apply(sem, p, c, childState, f)
      case Matched(x, t) =>
        if f == 0 {
          return OutOfFuel;
        }
        PrependAllStep(childResults, x, UntilEmptyLoop(sem, p, c, t, f - 1));
        childResults := childResults + [x];
        childState := t;
        f := f - 1;
      case Failed(e) =>
        return Failed(RuleFault(s, [e]));
      case OutOfFuel =>
        return OutOfFuel;
    }
    assert childResults + [] == childResults;
    o := Matched(Node(childResults), childState);
  }

  /** This UntilEmpty and the processor's While on "not empty" agree on every input, except
      that this one anchors a failure at the state it started from and While at the state
      where the child failed; both carry the same child error. */
  lemma {:induction false} UntilEmptyIsWhile<L, V, T>(sem: Sem<L, V, seq<T>>, p: Processor<L>, c: Rule<L>, s: seq<T>, fuel: nat)
    requires forall t: seq<T> :: sem.cond(t) <==> |t| > 0
    ensures !UntilEmptyLoop(sem, p, c, s, fuel).Failed? ==> UntilEmptyLoop(sem, p, c, s, fuel) == WhileFrom(sem, p, c, s, fuel)
    ensures UntilEmptyLoop(sem, p, c, s, fuel).Failed? <==> WhileFrom(sem, p, c, s, fuel).Failed?
    ensures UntilEmptyLoop(sem, p, c, s, fuel).Failed? ==>
      WhileFrom(sem, p, c, s, fuel).error.children == [UntilEmptyLoop(sem, p, c, s, fuel).error]
    decreases fuel
  {
    StreamProcessor.CondIsNonEmpty(sem, s);
    if |s| > 0 {
      match Apply(sem, p, c, s, fuel)
      case Matched(x, t) =>
        if fuel > 0 {
          UntilEmptyIsWhile(sem, p, c, t, fuel - 1);
        }
      case Failed(_) =>
      case OutOfFuel =>
    }
  }

  /** HeadRule.apply: fail with 'empty stream' on an empty stream; otherwise convert the head,
      re-raising a failure of the conversion as a RuleError at the state, and move to the tail. */
  function HeadApply<V, T>(result: T -> Either<Result<V>, Error<seq<T>>>, s: seq<T>): (o: Outcome<V, seq<T>>)
    ensures !o.OutOfFuel?
    ensures o.Matched? <==> |s| > 0 && result(s[0]).Ok?
    ensures o.Matched? ==> o.result == result(s[0]).value && o.state == s[1..] && |o.state| == |s| - 1
    ensures |s| == 0 ==> o.Failed? && o.error.msg == Some("empty stream") && o.error.at == Some(s)
    ensures |s| > 0 && result(s[0]).Err? ==> o.Failed? && o.error == RuleFault(s, [result(s[0]).error])
  {
    if |s| == 0 then Failed(Error(Some("empty stream"), None, Some(s), []))
    else
      match result(s[0])
      case Ok(r) => Matched(r, s[1..])
      case Err(e) => Failed(RuleFault(s, [e]))
  }

  /** Any.result: the head itself as a leaf value. */
  function AnyResult<T>(head: T): Either<Result<T>, Error<seq<T>>> {
    Ok(Leaf(head))
  }

  /** Any matches every non-empty stream, giving the head as the value and consuming one item. */
  lemma AnyMatchesNonEmpty<T>(s: seq<T>)
    ensures HeadApply(AnyResult, s).Matched? <==> |s| > 0
    ensures |s| > 0 ==> HeadApply(AnyResult, s) == Matched(Leaf(s[0]), s[1..])
  {
  }
}
