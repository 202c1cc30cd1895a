/** The result and error trees shared by every rule of the processor
    (core/processor.py, classes Error, StateError, RuleError and Result). */
module Results {

  datatype Option<T> = None | Some(value: T)

  /** The outcome of a Python call that either returns a value or raises an error. */
  datatype Either<T, E> = Ok(value: T) | Err(error: E)

  /** processor.Error together with its refinements StateError and RuleError:
      `at` is the state a StateError or RuleError is anchored at (None for a plain Error). */
  datatype Error<S> = Error(msg: Option<string>, ruleName: Option<string>, at: Option<S>, children: seq<Error<S>>)

  /** A plain `Error(msg=...)`. */
  function Fault<S>(msg: string): Error<S> {
    Error(Some(msg), None, None, [])
  }

  /** A plain `Error(msg=..., children=[cause])`. */
  function FaultWith<S>(msg: string, cause: Error<S>): Error<S> {
    Error(Some(msg), None, None, [cause])
  }

  /** A `StateError(msg=..., state=s)`. */
  function StateFault<S>(msg: string, s: S): Error<S> {
    Error(Some(msg), None, Some(s), [])
  }

  /** A `RuleError(state=s, children=causes)` without a message. */
  function RuleFault<S>(s: S, causes: seq<Error<S>>): Error<S> {
    Error(None, None, Some(s), causes)
  }

  /** Error.with_rule_name: re-tag an error while it propagates. */
  function ErrorWithRuleName<S>(e: Error<S>, name: string): (r: Error<S>)
    ensures r.ruleName == Some(name)
    ensures r.msg == e.msg && r.at == e.at && r.children == e.children
  {
    e.(ruleName := Some(name))
  }

  /** Error.as_child_error */
  function AsChildError<S>(e: Error<S>): Error<S> {
    Error(None, None, None, [e])
  }

  /** An error raised over one kind of state, reported inside an error over another kind (a
      lexer error inside a parser error): messages, rule names and nesting are kept, the states
      the errors were raised at are not. */
  function Detach<S, T>(e: Error<S>): (d: Error<T>)
    ensures d.msg == e.msg && d.ruleName == e.ruleName && d.at.None?
    ensures |d.children| == |e.children|
    ensures forall i :: 0 <= i < |e.children| ==> d.children[i] == Detach(e.children[i])
    decreases e
  {
    Error(e.msg, e.ruleName, None, seq(|e.children|, i requires 0 <= i < |e.children| => Detach(e.children[i])))
  }

  /** A node of a result tree: an optional value, an optional rule name and ordered children. */
  datatype Result<V> = Result(value: Option<V>, ruleName: Option<string>, children: seq<Result<V>>)

  /** `Result(children=cs)`: an untagged, valueless node. */
  function Node<V>(cs: seq<Result<V>>): Result<V> {
    Result(None, None, cs)
  }

  /** `Result(value=v)` */
  function Leaf<V>(v: V): Result<V> {
    Result(Some(v), None, [])
  }

  /** Result.with_rule_name */
  function WithRuleName<V>(r: Result<V>, name: string): (t: Result<V>)
    ensures t.ruleName == Some(name)
    ensures t.value == r.value && t.children == r.children
  {
    r.(ruleName := Some(name))
  }

  /** Result.as_child_result */
  function AsChild<V>(r: Result<V>): Result<V> {
    Node([r])
  }

  /** Result.skip: keep only the children of a node. */
  function Skip<V>(r: Result<V>): Result<V> {
    Node(r.children)
  }

  /** Result.empty: no value and no rule name anywhere in the tree. */
  predicate Empty<V>(r: Result<V>) {
    r.value.None? && r.ruleName.None? && forall i :: 0 <= i < |r.children| ==> Empty(r.children[i])
  }

  /** The node that Result.simplify replaces by its only child. */
  predicate Collapsible<V>(r: Result<V>) {
    r.value.None? && r.ruleName.None? && |r.children| == 1
  }

  /** Result.simplify: an untagged, valueless node with exactly one child becomes that child;
      any other node keeps its value and rule name and simplifies its non-empty children. */
  function Simplify<V>(r: Result<V>): (t: Result<V>)
    ensures Empty(t) <==> Empty(r)
    ensures Collapsible(r) ==> t == r.children[0]
    ensures !Collapsible(r) ==> t.value == r.value && t.ruleName == r.ruleName
    ensures !Collapsible(r) ==> forall i :: 0 <= i < |t.children| ==> !Empty(t.children[i])
    ensures !Collapsible(r) ==> |t.children| == |NonEmpty(r.children)|
  {
    if Collapsible(r) then r.children[0]
    else
      var ts := SimplifyAll(r.children);
      assert ts != [] ==> !Empty(ts[0]);
      Result(r.value, r.ruleName, ts)
  }

  /** `[child.simplify() for child in children if not child.empty()]` */
  function SimplifyAll<V>(cs: seq<Result<V>>): (ts: seq<Result<V>>)
    ensures forall i :: 0 <= i < |ts| ==> !Empty(ts[i])
    ensures |ts| == |NonEmpty(cs)|
    ensures ts == [] <==> forall i :: 0 <= i < |cs| ==> Empty(cs[i])
  {
    if cs == [] then []
    else
      (if Empty(cs[0]) then [] else [Simplify(cs[0])]) + SimplifyAll(cs[1..])
  }

  /** The filter keeps exactly the non-empty results. */
  lemma {:induction false} NonEmptyFilters<V>(cs: seq<Result<V>>)
    ensures forall c :: c in NonEmpty(cs) <==> c in cs && !Empty(c)
    decreases cs
  {
    if cs != [] {
      NonEmptyFilters(cs[1..]);
      assert cs == [cs[0]] + cs[1..];
    }
  }

  /** simplify keeps the non-empty children, in order, and simplifies each of them. */
  lemma {:induction false} SimplifyAllPointwise<V>(cs: seq<Result<V>>)
    ensures |SimplifyAll(cs)| == |NonEmpty(cs)|
    ensures forall i :: 0 <= i < |NonEmpty(cs)| ==> SimplifyAll(cs)[i] == Simplify(NonEmpty(cs)[i])
    decreases cs
  {
    if cs != [] {
      SimplifyAllPointwise(cs[1..]);
    }
  }

  /** The non-empty results of a list, in their order. */
  function NonEmpty<V>(cs: seq<Result<V>>): (ne: seq<Result<V>>)
    ensures forall i :: 0 <= i < |ne| ==> !Empty(ne[i])
  {
    if cs == [] then []
    else (if Empty(cs[0]) then [] else [cs[0]]) + NonEmpty(cs[1..])
  }

  /** The children of all the given results, concatenated in order. */
  function ConcatChildren<V>(rs: seq<Result<V>>): seq<Result<V>> {
    if rs == [] then [] else ConcatChildren(rs[..|rs| - 1]) + rs[|rs| - 1].children
  }

  /** Result.merge_children, as a value. */
  function Merged<V>(rs: seq<Result<V>>): Result<V> {
    Node(ConcatChildren(rs))
  }

  /** Result.merge_children extends one list with the children of each result in turn. */
  method MergeChildren<V>(results: seq<Result<V>>) returns (merged: Result<V>)
    ensures merged == Merged(results)
    ensures |merged.children| == TotalChildren(results)
  {
    var childResults: seq<Result<V>> := [];
    var i := 0;
    while i < |results|
      invariant 0 <= i <= |results|
      invariant childResults == ConcatChildren(results[..i])
      invariant |childResults| == TotalChildren(results[..i])
    {
      assert results[..i + 1][..i] == results[..i];
      childResults := childResults + results[i].children;
      i := i + 1;
    }
    assert results[..i] == results;
    merged := Node(childResults);
  }

  /** The total number of children of the given results. */
  function TotalChildren<V>(rs: seq<Result<V>>): nat {
    if rs == [] then 0 else TotalChildren(rs[..|rs| - 1]) + |rs[|rs| - 1].children|
  }

  /** ConcatChildren distributes over concatenation of its argument. */
  lemma {:induction false} ConcatChildrenAppend<V>(a: seq<Result<V>>, b: seq<Result<V>>)
    ensures ConcatChildren(a + b) == ConcatChildren(a) + ConcatChildren(b)
    decreases |b|
  {
    if b == [] {
      assert a + b == a;
    } else {
      var b' := b[..|b| - 1];
      assert (a + b)[..|a + b| - 1] == a + b';
      ConcatChildrenAppend(a, b');
    }
  }

  /** Every element of ConcatChildren(rs) is a child of one of the rs. */
  lemma {:induction false} ConcatChildrenFrom<V>(rs: seq<Result<V>>, c: Result<V>)
    requires c in ConcatChildren(rs)
    ensures exists j :: 0 <= j < |rs| && c in rs[j].children
    decreases |rs|
  {
    var n := |rs| - 1;
    if c in rs[n].children {
    } else {
      ConcatChildrenFrom(rs[..n], c);
      var j :| 0 <= j < n && c in rs[..n][j].children;
      assert rs[j] == rs[..n][j];
    }
  }

  /** The number of nodes in a result tree. */
  function Size<V>(r: Result<V>): nat {
    1 + SizeAll(r.children)
  }

  function SizeAll<V>(cs: seq<Result<V>>): nat {
    if cs == [] then 0 else Size(cs[0]) + SizeAll(cs[1..])
  }

  lemma {:induction false} SizeAllBound<V>(cs: seq<Result<V>>, c: Result<V>)
    requires c in cs
    ensures Size(c) <= SizeAll(cs)
    decreases |cs|
  {
    if cs[0] != c {
      SizeAllBound(cs[1..], c);
    }
  }

  /** Result.where: the nodes that satisfy cond, each taken whole, wrapped under one fresh
      untagged node; a node that satisfies cond is not searched inside. */
  function Where<V>(r: Result<V>, cond: Result<V> -> bool): Result<V>
  {
    if cond(r) then AsChild(r)
    else Merged(WhereEach(r.children, cond))
  }

  /** `[child.where(cond) for child in children]` */
  function WhereEach<V>(cs: seq<Result<V>>, cond: Result<V> -> bool): (ws: seq<Result<V>>)
    ensures |ws| == |cs|
  {
    seq(|cs|, i requires 0 <= i < |cs| => Where(cs[i], cond))
  }

  /** What Result.where promises: an untagged, valueless node whose children all satisfy cond
      and are subtrees of the searched tree (proper subtrees when the root does not match). */
  lemma {:induction false} WhereShape<V>(r: Result<V>, cond: Result<V> -> bool)
    ensures Where(r, cond).value.None? && Where(r, cond).ruleName.None?
    ensures cond(r) ==> Where(r, cond).children == [r]
    ensures forall c | c in Where(r, cond).children :: cond(c)
    ensures forall c | c in Where(r, cond).children :: Size(c) <= Size(r)
    ensures !cond(r) ==> forall c | c in Where(r, cond).children :: Size(c) < Size(r)
  {
    if !cond(r) {
      var ws := WhereEach(r.children, cond);
      forall c | c in Where(r, cond).children
        ensures cond(c) && Size(c) < Size(r)
      {
        ConcatChildrenFrom(ws, c);
        var j :| 0 <= j < |ws| && c in ws[j].children;
        WhereShape(r.children[j], cond);
        SizeAllBound(r.children, r.children[j]);
      }
    }
  }

  /** The children of where, defined directly: the matching nodes in pre-order, none searched inside. */
  function Matches<V>(r: Result<V>, cond: Result<V> -> bool): seq<Result<V>> {
    if cond(r) then [r] else MatchesAll(r.children, cond)
  }

  function MatchesAll<V>(cs: seq<Result<V>>, cond: Result<V> -> bool): seq<Result<V>> {
    if cs == [] then [] else Matches(cs[0], cond) + MatchesAll(cs[1..], cond)
  }

  /** Result.where lists the matches left to right, in pre-order. */
  lemma {:induction false} WhereIsPreorder<V>(r: Result<V>, cond: Result<V> -> bool)
    ensures Where(r, cond).children == Matches(r, cond)
  {
    if !cond(r) {
      WhereAllIsPreorder(r.children, cond);
    }
  }

  lemma {:induction false} WhereAllIsPreorder<V>(cs: seq<Result<V>>, cond: Result<V> -> bool)
    ensures ConcatChildren(WhereEach(cs, cond)) == MatchesAll(cs, cond)
    decreases cs
  {
    var ws := WhereEach(cs, cond);
    if cs != [] {
      var ws' := WhereEach(cs[1..], cond);
      assert ws == [ws[0]] + ws';
      ConcatChildrenAppend([ws[0]], ws');
      assert ConcatChildren([ws[0]]) == ws[0].children by {
        assert [ws[0]][..0] == [];
      }
      WhereIsPreorder(cs[0], cond);
      WhereAllIsPreorder(cs[1..], cond);
    }
  }

  /** Searching the result of where again finds the same nodes (unless the wrapper itself matches). */
  lemma WhereIdempotent<V>(r: Result<V>, cond: Result<V> -> bool)
    requires !cond(Where(r, cond))
    ensures Where(Where(r, cond), cond) == Where(r, cond)
  {
    var w := Where(r, cond);
    WhereShape(r, cond);
    var ws := WhereEach(w.children, cond);
    forall i | 0 <= i < |w.children|
      ensures ws[i] == AsChild(w.children[i])
    {
      assert w.children[i] in w.children;
      assert cond(w.children[i]);
      assert ws[i] == Where(w.children[i], cond);
    }
    WrappedConcat(w.children, ws);
  }

  /** Concatenating the children of one-child wrappers gives back the wrapped list. */
  lemma {:induction false} WrappedConcat<V>(cs: seq<Result<V>>, ws: seq<Result<V>>)
    requires |ws| == |cs|
    requires forall i :: 0 <= i < |cs| ==> ws[i] == AsChild(cs[i])
    ensures ConcatChildren(ws) == cs
    decreases |cs|
  {
    if cs != [] {
      var n := |cs| - 1;
      WrappedConcat(cs[..n], ws[..n]);
    }
  }

  /** where_n fails unless exactly n nodes match. */
  function WhereN<V, S>(r: Result<V>, cond: Result<V> -> bool, n: int): (o: Either<Result<V>, Error<S>>)
    ensures o.Ok? <==> |Where(r, cond).children| == n
    ensures o.Ok? ==> o.value == Where(r, cond)
  {
    var w := Where(r, cond);
    if |w.children| != n then Err(Fault("expected " + NatToString(n) + " results got " + NatToString(|w.children|)))
    else Ok(w)
  }

  /** where_one: the single matching node, unwrapped. */
  function WhereOne<V, S>(r: Result<V>, cond: Result<V> -> bool): (o: Either<Result<V>, Error<S>>)
    ensures o.Ok? <==> |Matches(r, cond)| == 1
    ensures o.Ok? ==> o.value == Matches(r, cond)[0] && cond(o.value) && Size(o.value) <= Size(r)
    ensures o.Ok? && !cond(r) ==> Size(o.value) < Size(r)
  {
    WhereIsPreorder(r, cond);
    WhereShape(r, cond);
    match WhereN<V, S>(r, cond, 1)
    case Ok(w) => assert w.children[0] in w.children; Ok(w.children[0])
    case Err(e) => Err(e)
  }

  /** Decimal digits of a number, used in error messages only. */
  function NatToString(n: int): string
    decreases if n < 0 then 1 - n else n
  {
    if n < 0 then "-" + NatToString(-n)
    else if n < 10 then ["0123456789"[n]]
    else NatToString(n / 10) + ["0123456789"[n % 10]]
  }

  predicate HasValue<V>(r: Result<V>) {
    r.value.Some?
  }

  predicate HasRuleName<V>(r: Result<V>) {
    r.ruleName.Some?
  }

  /** Result.rule_name_is */
  function RuleNameIs<V>(name: string): Result<V> -> bool {
    (r: Result<V>) => r.ruleName == Some(name)
  }

  /** The values of a list of valued results. */
  function ValuesOf<V>(cs: seq<Result<V>>): seq<V> {
    if cs == [] then [] else (if cs[0].value.Some? then [cs[0].value.value] else []) + ValuesOf(cs[1..])
  }

  /** Result.all_values: the values of the nodes found by where(has_value). */
  function AllValues<V>(r: Result<V>): seq<V> {
    ValuesOf(Where(r, HasValue).children)
  }

  /** The values of the topmost valued nodes, left to right: a node's own value if it has one,
      otherwise its children's. */
  function TopValues<V>(r: Result<V>): seq<V> {
    if r.value.Some? then [r.value.value] else TopValuesAll(r.children)
  }

  function TopValuesAll<V>(cs: seq<Result<V>>): seq<V> {
    if cs == [] then [] else TopValues(cs[0]) + TopValuesAll(cs[1..])
  }

  lemma {:induction false} ValuesOfAppend<V>(a: seq<Result<V>>, b: seq<Result<V>>)
    ensures ValuesOf(a + b) == ValuesOf(a) + ValuesOf(b)
    decreases |a|
  {
    if a == [] {
      assert a + b == b;
    } else {
      assert (a + b)[0] == a[0];
      assert (a + b)[1..] == a[1..] + b;
      ValuesOfAppend(a[1..], b);
    }
  }

  /** all_values collects the topmost values in left-to-right order. */
  lemma {:induction false} AllValuesAreTopValues<V>(r: Result<V>)
    ensures AllValues(r) == TopValues(r)
  {
    WhereIsPreorder(r, HasValue);
    MatchesValues(r);
  }

  lemma {:induction false} MatchesValues<V>(r: Result<V>)
    ensures ValuesOf(Matches(r, HasValue)) == TopValues(r)
  {
    if !HasValue(r) {
      MatchesAllValues(r.children);
    }
  }

  lemma {:induction false} MatchesAllValues<V>(cs: seq<Result<V>>)
    ensures ValuesOf(MatchesAll(cs, HasValue)) == TopValuesAll(cs)
    decreases cs
  {
    if cs != [] {
      ValuesOfAppend(Matches(cs[0], HasValue), MatchesAll(cs[1..], HasValue));
      MatchesValues(cs[0]);
      MatchesAllValues(cs[1..]);
    }
  }

  lemma {:induction false} EmptyHasNoValues<V>(r: Result<V>)
    requires Empty(r)
    ensures TopValues(r) == []
  {
    EmptyAllHasNoValues(r.children);
  }

  lemma {:induction false} EmptyAllHasNoValues<V>(cs: seq<Result<V>>)
    requires forall i :: 0 <= i < |cs| ==> Empty(cs[i])
    ensures TopValuesAll(cs) == []
    decreases cs
  {
    if cs != [] {
      EmptyHasNoValues(cs[0]);
      EmptyAllHasNoValues(cs[1..]);
    }
  }

  /** simplify never loses or reorders a value. */
  lemma {:induction false} SimplifyKeepsValues<V>(r: Result<V>)
    ensures AllValues(Simplify(r)) == AllValues(r)
  {
    AllValuesAreTopValues(r);
    AllValuesAreTopValues(Simplify(r));
    SimplifyKeepsTopValues(r);
  }

  lemma {:induction false} SimplifyKeepsTopValues<V>(r: Result<V>)
    ensures TopValues(Simplify(r)) == TopValues(r)
  {
    if Collapsible(r) {
      assert r.children[1..] == [];
      assert TopValuesAll(r.children) == TopValues(r.children[0]) + TopValuesAll(r.children[1..]);
    } else if r.value.None? {
      SimplifyAllKeepsTopValues(r.children);
    }
  }

  lemma {:induction false} SimplifyAllKeepsTopValues<V>(cs: seq<Result<V>>)
    ensures TopValuesAll(SimplifyAll(cs)) == TopValuesAll(cs)
    decreases cs
  {
    if cs != [] {
      var head := if Empty(cs[0]) then [] else [Simplify(cs[0])];
      assert SimplifyAll(cs) == head + SimplifyAll(cs[1..]);
      TopValuesAllAppend(head, SimplifyAll(cs[1..]));
      if Empty(cs[0]) {
        EmptyHasNoValues(cs[0]);
      } else {
        SimplifyKeepsTopValues(cs[0]);
        assert TopValuesAll(head) == TopValues(Simplify(cs[0])) by {
          assert head[1..] == [];
        }
      }
      SimplifyAllKeepsTopValues(cs[1..]);
    }
  }

  lemma {:induction false} TopValuesAllAppend<V>(a: seq<Result<V>>, b: seq<Result<V>>)
    ensures TopValuesAll(a + b) == TopValuesAll(a) + TopValuesAll(b)
    decreases |a|
  {
    if a == [] {
      assert a + b == b;
    } else {
      assert (a + b)[0] == a[0];
      assert (a + b)[1..] == a[1..] + b;
      TopValuesAllAppend(a[1..], b);
    }
  }

  /** The values of the j-th result sit in the values of the whole list right after the
      values of the results before it. */
  lemma {:induction false} TopValuesAt<V>(rs: seq<Result<V>>, j: nat)
    requires j < |rs|
    ensures var k := |TopValuesAll(rs[..j])|;
      k + |TopValues(rs[j])| <= |TopValuesAll(rs)| &&
      TopValuesAll(rs)[k..k + |TopValues(rs[j])|] == TopValues(rs[j])
  {
    assert rs == rs[..j] + ([rs[j]] + rs[j + 1..]);
    TopValuesAllAppend(rs[..j], [rs[j]] + rs[j + 1..]);
    TopValuesAllAppend([rs[j]], rs[j + 1..]);
    assert TopValuesAll([rs[j]]) == TopValues(rs[j]) by {
      assert [rs[j]][1..] == [];
    }
  }

  /** Only leaves carry values: a node with a value has no children. */
  predicate ValuesAtLeaves<V>(r: Result<V>) {
    (r.value.Some? ==> r.children == []) && forall i :: 0 <= i < |r.children| ==> ValuesAtLeaves(r.children[i])
  }

  /** simplify keeps values at the leaves. */
  lemma {:induction false} SimplifyKeepsValuesAtLeaves<V>(r: Result<V>)
    requires ValuesAtLeaves(r)
    ensures ValuesAtLeaves(Simplify(r))
  {
    if !Collapsible(r) {
      SimplifyAllKeepsValuesAtLeaves(r.children);
    }
  }

  lemma {:induction false} SimplifyAllKeepsValuesAtLeaves<V>(cs: seq<Result<V>>)
    requires forall i :: 0 <= i < |cs| ==> ValuesAtLeaves(cs[i])
    ensures forall i :: 0 <= i < |SimplifyAll(cs)| ==> ValuesAtLeaves(SimplifyAll(cs)[i])
    ensures cs == [] ==> SimplifyAll(cs) == []
    decreases cs
  {
    if cs != [] {
      var head := if Empty(cs[0]) then [] else [Simplify(cs[0])];
      assert SimplifyAll(cs) == head + SimplifyAll(cs[1..]);
      if !Empty(cs[0]) {
        SimplifyKeepsValuesAtLeaves(cs[0]);
      }
      SimplifyAllKeepsValuesAtLeaves(cs[1..]);
    }
  }
}
