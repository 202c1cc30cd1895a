/** The character-level regex processor of core/regex.py: a stream processor over single
    characters whose Literals give the matched character as a leaf, and whose result is read
    back as the text of its values. */
module Regex {
  import opened Results
  import opened Processor
  import StreamProcessor

  /** Char: exactly one character. */
  datatype Char = Char(value: char)

  /** Char construction: a value of any length other than one is an Error. */
  function NewChar(value: string): (o: Either<Char, Error<seq<Char>>>)
    ensures o.Ok? <==> |value| == 1
    ensures o.Ok? ==> o.value == Char(value[0])
    ensures o.Err? ==> o.error.msg == Some("invalid ResultValue value ")
  {
    if |value| != 1 then Err(Fault("invalid ResultValue value ")) else Ok(Char(value[0]))
  }

  type CharStream = seq<Char>

  /** load_char_stream: one Char per input character, in order. */
  function LoadCharStream(input: string): (s: CharStream)
    ensures |s| == |input|
    ensures forall i :: 0 <= i < |s| ==> s[i] == Char(input[i])
  {
    seq(|input|, i requires 0 <= i < |input| => Char(input[i]))
  }

  /** The characters of a Char stream, in order. */
  function Text(cs: seq<Char>): (t: string)
    ensures |t| == |cs|
    ensures forall i :: 0 <= i < |cs| ==> t[i] == cs[i].value
  {
    seq(|cs|, i requires 0 <= i < |cs| => cs[i].value)
  }

  /** Loading a string as a Char stream loses nothing: its text is the string again. */
  lemma TextOfLoad(input: string)
    ensures Text(LoadCharStream(input)) == input
  {
  }

  lemma TextAppend(a: seq<Char>, b: seq<Char>)
    ensures Text(a + b) == Text(a) + Text(b)
  {
  }

  /** Regex.flatten_values: the node's own value, then the flattened values of its children. */
  function FlattenValues(r: Result<Char>): string
    decreases r, 1
  {
    (if r.value.Some? then [r.value.value.value] else []) + FlattenAll(r.children)
  }

  function FlattenAll(cs: seq<Result<Char>>): string
    decreases cs, 0
  {
    if cs == [] then "" else FlattenValues(cs[0]) + FlattenAll(cs[1..])
  }

  /** When only leaves carry values, flattening reads the values of the topmost valued nodes
      from left to right. */
  lemma {:induction false} FlattenIsText(r: Result<Char>)
    requires ValuesAtLeaves(r)
    ensures FlattenValues(r) == Text(TopValues(r))
    decreases r, 1
  {
    if r.value.Some? {
      assert r.children == [];
      assert FlattenAll(r.children) == "";
    } else {
      FlattenAllIsText(r.children);
    }
  }

  lemma {:induction false} FlattenAllIsText(cs: seq<Result<Char>>)
    requires forall i :: 0 <= i < |cs| ==> ValuesAtLeaves(cs[i])
    ensures FlattenAll(cs) == Text(TopValuesAll(cs))
    decreases cs, 0
  {
    if cs != [] {
      FlattenIsText(cs[0]);
      FlattenAllIsText(cs[1..]);
      TextAppend(TopValues(cs[0]), TopValuesAll(cs[1..]));
    }
  }

  /** A Regex: a processor whose leaf rules are Literal Chars. */
  type Regex = Processor<Char>

  /** The Literal of core/regex.py: matches the head Char equal to its value and gives that
      Char as a leaf. */
  function RegexSem(): Sem<Char, Char, seq<Char>> {
    StreamProcessor.StreamSem()
  }

  datatype RegexOutcome = Flattened(text: string) | RegexFailed(error: Error<CharStream>) | RegexAborted

  /** Regex.apply: run the root rule on the Chars of the input and flatten the values of the
      result; a failure of the run is re-raised with the run's error as its only child. The
      text of a match is a prefix of the input: it is exactly the characters the run consumed. */
  function RegexApply(re: Regex, input: string, fuel: nat): (o: RegexOutcome)
    ensures o.Flattened? <==> ApplyRoot(RegexSem(), re, LoadCharStream(input), fuel).Matched?
    ensures o.Flattened? ==> o.text + Text(ApplyRoot(RegexSem(), re, LoadCharStream(input), fuel).state) == input
    ensures o.RegexFailed? <==> ApplyRoot(RegexSem(), re, LoadCharStream(input), fuel).Failed?
    ensures o.RegexFailed? ==>
      o.error == FaultWith("failed to apply regex ", ApplyRoot(RegexSem(), re, LoadCharStream(input), fuel).error)
  {
    var s := LoadCharStream(input);
    match ApplyRoot(RegexSem(), re, s, fuel)
    case Matched(r, t) =>
      StreamProcessor.StreamSemConserves<Char>();
      StreamProcessor.ApplyNameConserves(RegexSem(), re, re.root, s, fuel);
      FlattenIsText(r);
      TextAppend(TopValues(r), t);
      TextOfLoad(input);
      Flattened(FlattenValues(r))
    case Failed(e) => RegexFailed(FaultWith("failed to apply regex ", e))
    case OutOfFuel => RegexAborted
  }

  /** The processor of the unit tests: root 'a' is Literal(Char('a')). */
  function LiteralA(): Regex {
    Processor("a", map["a" := HeadRule(Char('a'))])
  }

  /** 'a' is matched and flattened back to 'a'. */
  lemma LiteralAccepts()
    ensures RegexApply(LiteralA(), "a", 1) == Flattened("a")
  {
    var s := LoadCharStream("a");
    assert s == [Char('a')];
    StreamProcessor.LiteralMatches(LiteralA(), Char('a'), s, 0);
    assert Apply(RegexSem(), LiteralA(), HeadRule(Char('a')), s, 0) == Matched(Leaf(Char('a')), []);
    assert Simplify(WithRuleName(Leaf(Char('a')), "a")) == Result(Some(Char('a')), Some("a"), []);
    assert ApplyRoot(RegexSem(), LiteralA(), s, 1) == Matched(Result(Some(Char('a')), Some("a"), []), []);
    assert FlattenValues(Result(Some(Char('a')), Some("a"), [])) == "a";
  }

  /** 'b' is rejected with the regex Error. */
  lemma LiteralRejects()
    ensures RegexApply(LiteralA(), "b", 1).RegexFailed?
  {
    var s := LoadCharStream("b");
    assert s == [Char('b')];
    StreamProcessor.LiteralMatches(LiteralA(), Char('a'), s, 0);
    assert Apply(RegexSem(), LiteralA(), HeadRule(Char('a')), s, 0).Failed?;
  }
}
