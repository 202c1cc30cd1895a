# pysh3 core parsing engine in Dafny

This project models the parsing core of pysh3, a Python toolkit for building shells and small
languages, and proves properties of that model. The core is a generic rule-combinator engine.

- **Rules.** A processor is a root rule name plus a table of named rules. Rules are `Ref`,
  `And`, `Or`, `ZeroOrMore`, `OneOrMore`, `ZeroOrOne`, `While`, and leaf rules that look at the
  head of a stream. Applying a rule to a state gives a result tree and a new state, or raises an
  error tree.
- **Instances.** Three instances sit on top of the engine:
  - the lexer, which turns characters into tokens;
  - the parser, which lexes its input and then runs rules over the tokens;
  - the regex processor, which runs over characters and reads its result back as text.
- **Loader.** The loader bootstraps the system. It compiles lexer rules from a regex
  mini-language and parsers from a grammar language. It does this by running hand-written
  parsers and converting their result trees into rules.

The project has one module per source file.

| file | module | models |
|---|---|---|
| `results.dfy` | `Results` | the result and error trees of `core/processor.py` |
| `processor.dfy` | `Processor` | the rule semantics of `core/processor.py` |
| `stream_processor.dfy` | `StreamProcessor` | `core/stream_processor.py` |
| `stream.dfy` | `StreamRules` | `core/stream.py` |
| `lexer.dfy` | `Lexer` | `core/lexer.py` |
| `parser.dfy` | `Parser` | `core/parser.py` |
| `regex.dfy` | `Regex` | `core/regex.py` |
| `loader.dfy` | `Loader` | `core/loader.py` |
| `loader_examples.dfy` | `LoaderExamples` | the regex table of `core/loader_test.py`, on the trees the regex parser gives |

`Apply` gives one definition of rule application. It is parameterised by a semantics (`Sem`)
that supplies the leaf rules, the condition of `While`, and the step of `Not`.

The Python recursion becomes a `fuel` count, and a run that uses up its fuel ends in
`OutOfFuel`. The `ApplyFuel` lemmas show that more fuel never changes a finished outcome, so
fuel only ever cuts off runs that do not finish.

The loops of the source are Dafny methods proved equal to these functions:

- `RunAnd`, `RunOr`, `RunZeroOrMore`, `RunOneOrMore` and `RunWhile`;
- `RunUntilEmpty` and `MergeChildren`;
- the lexer's `Add`, `ConvertInput` and `ConvertResult`;
- the loader's `LoadLexerRules`, `LoadParserRules` and `LoadParser`.

Over streams, every rule application conserves its input (`ApplyConserves`): the values of the
topmost valued nodes of a result, followed by the remaining stream, are exactly the stream the
rule started from. `RegexApply`'s prefix property follows from this.

## Model

| member | source | states |
|---|---|---|
| Results.ErrorWithRuleName | core/processor.py:79-80 | a renamed error carries the new rule name and keeps its message, state and children |
| Results.WithRuleName | core/processor.py:169-171 | a renamed result carries the new rule name and keeps its value and children |
| Results.Simplify | core/processor.py:183-190 | simplify keeps emptiness; a valueless, untagged node with one child becomes that child; any other node keeps its value and rule name and keeps one non-empty child per non-empty child it had |
| Results.SimplifyAll | core/processor.py:188-190 | the simplified children are all non-empty, as many as the non-empty inputs, and none at all exactly when every input is empty |
| Results.NonEmptyFilters | core/processor.py:188-190 | the non-empty children are exactly the children that are not empty |
| Results.SimplifyAllPointwise | core/processor.py:188-190 | the i-th simplified child is the simplification of the i-th non-empty child |
| Results.MergeChildren | core/processor.py:193-198 | the loop builds the node whose children are all the results' children concatenated in order; their count is the sum of the counts |
| Results.WhereShape | core/processor.py:200-204 | where gives an untagged node without a value; every child satisfies cond; a node that satisfies cond is its own only match; matches are never larger than the node |
| Results.WhereIsPreorder | core/processor.py:200-204 | where's children are exactly the matches in pre-order, left to right, and it does not search inside a match |
| Results.WhereAllIsPreorder | core/processor.py:202-204 | merging the where of each child gives the children's matches in order |
| Results.WhereIdempotent | core/processor.py:200-204 | applying where twice gives what one application gives, unless the wrapper itself matches |
| Results.WhereN | core/processor.py:206-216 | succeeds exactly when there are n matches, and then gives where's node |
| Results.WhereOne | core/processor.py:218-220 | succeeds exactly when there is one match, and gives that match; it satisfies cond and is no larger than the node |
| Results.AllValuesAreTopValues | core/processor.py:253-259 | all_values are the values of the topmost valued nodes, left to right |
| Results.MatchesValues | core/processor.py:249-259 | the values of the has_value matches are all_values |
| Results.EmptyHasNoValues | core/processor.py:177-181 | an empty result holds no values |
| Results.SimplifyKeepsValues | core/processor.py:183-190 | simplify neither loses nor reorders a value |
| Results.SimplifyKeepsTopValues | core/processor.py:183-190 | simplify keeps the values of the topmost valued nodes |
| Results.SimplifyKeepsValuesAtLeaves | core/processor.py:183-190 | if only leaves carry values before simplify, the same holds after it |
| Processor.ApplyName | core/processor.py:360-372 | an unknown name fails with a state error at the state; a success carries the name; a failure of a known rule is renamed to it |
| Processor.NamedMatch | core/processor.py:360-372 | a named rule matches exactly when it is known and its rule matches; it then gives that result renamed and simplified, at the same state; a failure is the rule's error renamed |
| Processor.ApplyRoot | core/processor.py:379-384 | a success carries the root name; an unknown root fails |
| Processor.AndFrom | core/processor.py:424-443 | a success is an untagged valueless node with one child per rule |
| Processor.OrFrom | core/processor.py:453-466 | a success nests one child; a failure is a rule error at the state with one child per alternative |
| Processor.Star | core/processor.py:483-494 | zero or more never fails and gives an untagged valueless node |
| Processor.WhileFrom | core/processor.py:552-568 | a success ends where cond is false; a failure sits at a state where cond holds and has the child's error as its only child |
| Processor.RunAnd | core/processor.py:424-443 | the loop threads the state through the children and equals the And semantics |
| Processor.RunOr | core/processor.py:453-466 | the loop collects the errors of the failed alternatives and equals the Or semantics |
| Processor.RunZeroOrMore | core/processor.py:483-494 | the loop equals the ZeroOrMore semantics |
| Processor.RunOneOrMore | core/processor.py:504-525 | the first application followed by the loop equals the OneOrMore semantics |
| Processor.RepeatFrom | core/processor.py:518-525 | the repetition loop gives the collected results followed by those of zero or more further matches |
| Processor.RunWhile | core/processor.py:552-568 | the loop equals the While semantics |
| Processor.RefNests | core/processor.py:404-407 | a Ref matches exactly when its named rule does, and nests that rule's result; an unknown name fails with "unknown rule" |
| Processor.AndSplit | core/processor.py:429-433 | an And over a then b runs b from the state where a stopped; if a does not match, b is never run |
| Processor.AndChildFailure | core/processor.py:434-439 | the first child to fail decides the And's error, anchored at the And's start state |
| Processor.OrPicksFirst | core/processor.py:456-459 | Or gives the nested result of the first alternative that matches |
| Processor.OrFailsIffAllFail | core/processor.py:453-466 | Or fails exactly when every alternative fails, and its error lists their errors in order |
| Processor.OneOrMoreFailsIffFirstFails | core/processor.py:504-517 | OneOrMore fails exactly when its first application fails |
| Processor.ZeroOrOneNeverFails | core/processor.py:535-541 | ZeroOrOne never fails, and gives an empty node at the same state when the child fails |
| Processor.WhileSteps | core/processor.py:552-568 | While gives an empty node when cond is false; it fails when cond holds and the child fails; a success ends where cond is false |
| Processor.ApplyFuel | core/processor.py:339-346 | more fuel never changes a finished outcome |
| StreamProcessor.Head | core/stream_processor.py:37-42 | head succeeds exactly on a non-empty stream and gives its first item |
| StreamProcessor.Tail | core/stream_processor.py:44-49 | tail succeeds exactly on a non-empty stream and drops one item |
| StreamProcessor.HeadTail | core/stream_processor.py:37-49 | the head followed by the tail is the stream |
| StreamProcessor.FromResult | core/stream_processor.py:56-59 | the stream of a result is the values of its topmost valued nodes |
| StreamProcessor.HeadApply | core/stream_processor.py:110-128 | a head rule matches exactly when the stream is non-empty and pred holds of its head; it consumes that one item; a failure sits at the stream and has no children |
| StreamProcessor.Step | core/lexer.py:199-202 | one item is taken exactly when the stream is non-empty |
| StreamProcessor.LiteralMatches | core/stream_processor.py:132-139 | a Literal matches exactly a head equal to its value, and gives that head as a leaf |
| StreamProcessor.UntilEmptyConsumesAll | core/stream_processor.py:92-96 | a successful UntilEmpty has consumed the whole stream |
| StreamProcessor.ApplyConserves | core/processor.py:424-568 | every rule over a stream conserves it: the result's topmost values followed by the rest are the input, and values sit only at leaves |
| StreamProcessor.ApplyNameConserves | core/processor.py:360-372 | applying a named rule conserves the stream, through the renaming and simplify |
| StreamProcessor.AndConserves | core/processor.py:424-443 | And conserves the stream |
| StreamProcessor.OrConserves | core/processor.py:453-466 | Or conserves the stream |
| StreamProcessor.StarConserves | core/processor.py:483-494 | repetition conserves the stream |
| StreamProcessor.WhileConserves | core/processor.py:552-568 | While conserves the stream |
| StreamProcessor.LeafHeadConserves | core/stream_processor.py:125-128 | a head rule whose result is the head as a leaf conserves the stream |
| StreamProcessor.StepConserves | core/lexer.py:199-202 | taking one item conserves the stream |
| StreamProcessor.StreamSemConserves | core/stream_processor.py:110-139 | the Literal semantics conserves the stream |
| StreamProcessor.OnesAccepted | core/stream_processor_test.py:98-104 | UntilEmpty(Literal(1)) over [1, 1, 1] gives three leaves tagged with the root name |
| StreamProcessor.OnesRejected | core/stream_processor_test.py:106-115 | UntilEmpty(Literal(1)) rejects [1, 1, 1, 2] and [2] |
| StreamRules.UntilEmptyLoop | core/stream.py:84-94 | a successful loop ends on the empty stream with an untagged valueless node |
| StreamRules.UntilEmpty | core/stream.py:80-94 | a success consumes the whole stream; a failure is anchored at the start state with the child's error as its only child |
| StreamRules.RunUntilEmpty | core/stream.py:80-94 | the loop equals the UntilEmpty function |
| StreamRules.UntilEmptyIsWhile | core/stream.py:80-94 | UntilEmpty behaves as While with a non-empty condition; it fails exactly when While does |
| StreamRules.HeadApply | core/stream.py:110-123 | a head rule matches exactly when the stream is non-empty and the head's result is Ok; an empty stream is an "empty stream" error; a failed result is wrapped as the only child |
| StreamRules.AnyMatchesNonEmpty | core/stream.py:126-134 | Any matches exactly a non-empty stream and gives its head as a leaf |
| Lexer.Add | core/lexer.py:20-29 | the loop equals After, the position after reading the text |
| Lexer.AfterAppend | core/lexer.py:20-29 | advancing over s and then t is advancing over s + t |
| Lexer.AfterCountsLines | core/lexer.py:23-28 | the line grows by the number of newlines; without newlines the column grows by the length |
| Lexer.AfterNewline | core/lexer.py:24-26 | after a newline the column restarts at zero on the next line |
| Lexer.PositionExample | core/lexer.py:20-29 | "ab\ncd" from (0, 0) ends at line 1, column 2 |
| Lexer.NewChar | core/lexer.py:39-41 | a Char is built exactly from one character |
| Lexer.NewLiteral | core/lexer.py:177-179 | a Literal is built exactly from one character |
| Lexer.NewRange | core/lexer.py:228-234 | a Range is built exactly from two single characters with min < max |
| Lexer.LeafMatches | core/lexer.py:151-240 | a leaf rule matches exactly when the head character satisfies it, and gives that Char |
| Lexer.NotNegates | core/lexer.py:188-207 | Not takes one character exactly when its child fails on a non-empty stream; a child match makes Not fail; Not never matches the empty stream |
| Lexer.LexSemConserves | core/lexer.py:151-207 | the lexer's leaf rules conserve the character stream |
| Lexer.Put | core/loader.py:232 | ordered-dict insertion: a new key goes last, an existing key keeps its place, and the entry holds the new rule |
| Lexer.LexerProcessor | core/lexer.py:90-102 | the root is the internal root rule; the rule table is the user's rules plus the root and token rules; user rules take precedence |
| Lexer.LexerRules | core/lexer.py:114-120 | lexer_rules are exactly the rules whose names lack the internal prefix |
| Lexer.LexerRulesRoundTrip | core/lexer.py:90-120 | lexer_rules of a lexer built from user rules gives those rules back |
| Lexer.FirstDeclaredWins | core/lexer.py:96-99 | the token rule takes the first declared rule that matches |
| Lexer.LexRootConsumesInput | core/lexer.py:95 | a successful lex consumes the whole input |
| Lexer.CharPositions | core/lexer.py:122-129 | one Char per input character, the first at (0, 0), each next one advanced over the previous character |
| Lexer.ConvertInput | core/lexer.py:122-129 | the loop equals CharsOf |
| Lexer.TokenOf | core/lexer.py:134-141 | a token result without exactly one named match fails; otherwise it lexes exactly when the match's rule name is non-empty and it holds characters; an excluded name gives no token; any other gives the one token of that name, the matched characters' text and the first character's position |
| Lexer.TokensOf | core/lexer.py:131-142 | the conversion succeeds exactly when every token result converts; the tokens are non-empty and not excluded |
| Lexer.ConvertResult | core/lexer.py:131-142 | the loop equals the conversion of the token nodes found by where, token result by token result, stopping at the first that fails |
| Lexer.Lex | core/lexer.py:144-148 | a lex fails with the root run's error, and a successful root run gives the conversion of its token nodes (which `LexSplitsInput` ties to the input); every lexed token is non-empty and not excluded |
| Lexer.ApplyLexer | core/lexer.py:144-148 | converting the input to characters, running the root rule and converting its result equals Lex |
| Lexer.TextOfChars | core/lexer.py:122-129 | the text of the characters of any slice of the input is that slice |
| Lexer.TokensOfAppend | core/lexer.py:131-142 | converting two runs of token results is converting each and joining the tokens |
| Lexer.TokensOfFirstFailure | core/lexer.py:131-142 | a failed conversion is the failure of the first token result that does not convert |
| Lexer.SegmentedMatches | core/lexer.py:131-133 | in a lexer tree, the token nodes found by where hold every character of the tree, in order, and each has the token shape |
| Lexer.SimplifyKeepsSegmented | core/processor.py:183-190 | simplify keeps a lexer tree's split into token nodes |
| Lexer.OrOfRefsNests | core/lexer.py:96-99 | an Or of Refs that matches gives one nested child that carries a rule name |
| Lexer.TokenRuleShape | core/lexer.py:96-99 | a match of the token rule has the token shape: the token tag over one named rule result |
| Lexer.TokenLoopSegmented | core/lexer.py:95 | the root loop's result splits into token nodes |
| Lexer.TokenResultsCoverInput | core/lexer.py:95-142 | after a successful root run, the token nodes hold the input's characters in order, and each has the token shape |
| Lexer.TokenShapedGives | core/lexer.py:134-141 | a token-shaped node lexes exactly when its rule name is non-empty and it holds characters, and gives the token of that name, text and first position unless the name is excluded |
| Lexer.LexSplitsInput | core/lexer.py:122-148 | the tokens' texts concatenate to the input: the j-th token node's token holds the input slice at the offset the earlier nodes consumed, and sits at the position reached after that prefix |
| Lexer.CharTokenGives | core/lexer.py:134-141 | a token node over one character gives the one-character token of its rule, or nothing for an excluded rule |
| Lexer.AgaConverts | core/lexer_test.py:134-142 | the lexer tree of "aga" with the excluded rule _g converts to the tokens a at (0, 0) and a at (0, 2) |
| Parser.TokenLiteralMatches | core/parser.py:40-44 | a Literal matches exactly a head token with its rule name, and gives that token as a leaf |
| Parser.ParserSemConserves | core/parser.py:34-44 | the parser's leaf rules conserve the token stream |
| Parser.Parse | core/parser.py:25-31 | a lex failure becomes a "lex error" holding the lexer's error; once lexed, the parse succeeds exactly when the root rule matches the tokens, gives that match, and fails with the run's error; a success carries the root name |
| Parser.ParsedValuesAreTokens | core/parser.py:25-31 | the values of a parse are a prefix of the lexed tokens, none of them excluded |
| Parser.ExprMatchesId | core/parser_test.py:21 | expr = Or([id]) over an id token gives the token nested under expr |
| Parser.IdsLoop | core/parser_test.py:20 | the root loop over n id tokens gives n nested exprs and consumes everything |
| Parser.SimplifyAllOfExprs | core/processor.py:183-190 | simplify collapses each single-child wrapper around an expr |
| Parser.IdsParse | core/parser_test.py:46-62 | the root over n id tokens gives root(expr(id), ...) |
| Parser.IdsExample | core/parser_test.py:53-62 | tokens a, b, c at columns 0, 2, 4 give root(expr(a), expr(b), expr(c)) |
| Parser.IdsRefFails | core/parser_test.py:21 | with expr = Or([Ref('id')]) and no parser rule named id, the parse fails |
| Regex.NewChar | core/regex.py:9-15 | a Char is built exactly from one character |
| Regex.LoadCharStream | core/regex.py:21-22 | one Char per input character, in order |
| Regex.TextOfLoad | core/regex.py:21-22 | the text of the loaded stream is the input |
| Regex.FlattenIsText | core/regex.py:39-44 | when values sit at leaves, flattening gives the topmost values' text from left to right |
| Regex.FlattenAllIsText | core/regex.py:39-44 | flattening the children gives their topmost values' text in order |
| Regex.RegexApply | core/regex.py:46-51 | regex apply succeeds exactly when the root rule matches, and the text is a prefix of the input; a failure is re-raised with the run's error as its only child |
| Regex.LiteralAccepts | core/regex_test.py:26-27 | Literal('a') applied to "a" gives "a" |
| Regex.LiteralRejects | core/regex_test.py:29-31 | Literal('a') applied to "b" raises |
| Loader.Select | core/loader.py:15-30 | factory finds the one node strictly below the result whose rule name is a key; zero or several are an error |
| Loader.GetToken | core/loader.py:33-41 | succeeds exactly when one node holds a value, and gives that token |
| Loader.GetTokenValue | core/loader.py:44-46 | gives the text of GetToken's token |
| Loader.ContainsOne | core/loader.py:73 | for one character, substring containment is membership |
| Loader.LiteralRule | core/loader.py:74 | a one-character value gives the Literal leaf |
| Loader.SpecialRule | core/loader.py:68-75 | `w` is the whitespace class; an operator character is its Literal; anything else is "invalid special char " |
| Loader.LoadSpecial | core/loader.py:65-75 | once the special_char token is found, its text is decided by SpecialRule; a missing special_char node is passed on |
| Loader.LoadLiteral | core/loader.py:77-78 | succeeds exactly when the one token has one character, and gives its Literal |
| Loader.LoadRange | core/loader.py:96-98 | needs exactly two char tokens; it succeeds exactly when their one-character texts make a valid Range, and gives the Range from the first to the second, with min < max |
| Loader.LoadRule | core/loader.py:105-117 | a failed selection is passed on; otherwise the selected node's kind decides: literal, any and special give leaf rules, and and, or, class and the unary operators load as their own loaders do |
| Loader.LoadUnary | core/loader.py:100-103 | a missing operand node is passed on; otherwise it loads exactly when the operand's rule loads, and wraps that rule in the operator |
| Loader.LoadRules | core/loader.py:81 | the rules of the rule nodes, one per node, in order |
| Loader.LoadAnd | core/loader.py:80-84 | loads exactly when every rule node loads; one node gives its own rule; several give an And whose i-th child is the i-th node's rule |
| Loader.AndCollapses | core/loader.py:82-83 | a single rule node gives that node's rule, not an And |
| Loader.LoadOr | core/loader.py:86-87 | loads exactly when every rule node loads, and gives an Or whose i-th child is the i-th node's rule |
| Loader.LoadClassPart | core/loader.py:119-123 | a failed selection is passed on; a literal, special or range part loads as that loader does, and gives a leaf rule |
| Loader.LoadClassParts | core/loader.py:89-91 | the parts' rules, one per part, in order |
| Loader.LoadClass | core/loader.py:89-94 | loads exactly when every class part loads; one part gives its rule; several give an Or whose i-th child is the i-th part's leaf rule |
| Loader.ClassCollapses | core/loader.py:92-93 | a single part gives that part's rule, not an Or |
| Loader.PutAll | core/loader.py:207-210 | inserting many named rules keeps the map valid, adds exactly the names, folds the declarations in order, and with distinct names maps each name to its own rule |
| Loader.DeclaresStep | core/loader.py:207-210 | folding a declaration followed by others is folding the others into the map updated with it |
| Loader.DistinctDeclares | core/loader.py:207-210 | when the names are distinct, the fold maps each name to its own rule |
| Loader.ZipDeclares | core/loader.py:207-210 | the fold of paired names and rules adds exactly those names, and with distinct names maps each to its rule |
| Loader.OperatorNames | core/loader.py:207-210 | the i-th lexer rule name is the i-th operator character |
| Loader.LoadLexRule | core/loader.py:61-212 | a parse failure is passed on and an abort stays an abort; a parsed regex loads exactly when load_and over its tree succeeds, giving that rule, and fails with load_and's error otherwise |
| Loader.OperatorRule | core/loader.py:221-224 | a one-character operator gives its bare Literal; a longer one gives an And whose i-th child is the Literal of its i-th character |
| Loader.StripQuotes | core/loader.py:230-231 | drops exactly the first and last character |
| Loader.LexerDecl | core/loader.py:228-232 | the id token names the rule; the lexer_val text, without its quotes, is the loaded regex |
| Loader.LexerDeclText | core/loader.py:228-231 | a lexer declaration's text exists exactly when it has one id token and one lexer_val token, and is their two texts |
| Loader.PutLoads | core/loader.py:226-232 | inserting loaded declarations succeeds exactly when every one loaded, only adds names and keeps the map valid |
| Loader.PutLoadsDeclares | core/loader.py:226-232 | a successful insertion is the fold of the loaded declarations, in order; a later duplicate name wins |
| Loader.LexerRulesFrom | core/loader.py:226-232 | loads exactly when every declaration loads; only adds names and keeps the map valid |
| Loader.LexerRulesFromDeclares | core/loader.py:226-232 | the lexer rules loaded from declarations are their fold into the start map, the last duplicate winning |
| Loader.LoadLexerRules | core/loader.py:226-232 | the loop equals LexerRulesFrom over the lexer_decl nodes; a success is the fold of the loaded declarations into an empty map |
| Loader.LoadParserRule | core/loader.py:238-256 | a failed selection is passed on; a ref gives the Ref of its token's text or "failed to load ref "; an and or an or loads exactly when every operand loads, with the i-th child the i-th operand's rule |
| Loader.LoadOperands | core/loader.py:245-250 | the rules of the operand nodes, one per node, in order |
| Loader.ParserDecl | core/loader.py:258-273 | the rule_name token names the rule and the rule node gives it; a missing rule_name is "failed to get rule_name in " |
| Loader.ParserRulesFrom | core/loader.py:258-273 | the first declaration names the root, which is among the rules; names are only added |
| Loader.ParserRulesFromDeclares | core/loader.py:258-273 | the parser rules loaded from declarations are their fold into the start rules, the last duplicate winning |
| Loader.LoadParserRules | core/loader.py:234-277 | the loop equals ParserRulesFrom; the root is the first declaration's name and is among the rules; the rules are the fold of the declarations; a failing declaration's error is passed on; no declaration is "no root rule name found" |
| Loader.GrammarParser | core/loader.py:279-337 | the grammar parser exists exactly when its lexer rules load, and its root is a rule |
| Loader.ParseGrammar | core/loader.py:279-339 | a grammar loads exactly as the grammar parser parses it: a parse gives its tree, a parse failure or a failure to build the grammar lexer is passed on |
| Loader.LoadParser | core/loader.py:215-341 | the parser loads exactly when the grammar parses, its lexer declarations load and at least one parser declaration is given and all of them load; it then holds the lexer rules and parser rules of those declarations with the first as root; each phase's failure is passed on; a grammar without parser declarations fails with "no root rule name found" |
| LoaderExamples.LoadsLiteral | core/loader_test.py:22 | the regex parser's tree of `a` loads as Literal('a') |
| LoaderExamples.LoadsAny | core/loader_test.py:23 | the regex parser's tree of `.` loads as Any |
| LoaderExamples.LoadsWhitespace | core/loader_test.py:24 | the regex parser's tree of `\w` loads as the whitespace class |
| LoaderExamples.LoadsEscapedOperator | core/loader_test.py:25 | the regex parser's tree of `\.` loads as Literal('.') |
| LoaderExamples.LoadsAnd | core/loader_test.py:26 | the regex parser's tree of `(ab)` loads as And of Literal('a') and Literal('b') |
| LoaderExamples.LoadsOr | core/loader_test.py:27 | the regex parser's tree of `a` or `b` in parentheses loads as Or of Literal('a') and Literal('b') |
| LoaderExamples.LoadsClassOfLiterals | core/loader_test.py:28 | the regex parser's tree of `[ab]` loads as Or of Literal('a') and Literal('b') |
| LoaderExamples.LoadsRange | core/loader_test.py:29 | the regex parser's tree of `[a-z]` loads as Range('a', 'z') |
| LoaderExamples.LoadsClassOfRanges | core/loader_test.py:30 | the regex parser's tree of `[a-zA-Z]` loads as Or of Range('a', 'z') and Range('A', 'Z') |
| LoaderExamples.LoadsZeroOrMore | core/loader_test.py:31 | the regex parser's tree of `a*` loads as ZeroOrMore(Literal('a')) |
| LoaderExamples.LoadsOneOrMore | core/loader_test.py:32 | the regex parser's tree of `a+` loads as OneOrMore(Literal('a')) |
| LoaderExamples.LoadsZeroOrOne | core/loader_test.py:33 | the regex parser's tree of `a?` loads as ZeroOrOne(Literal('a')) |
| LoaderExamples.LoadsUntilEmpty | core/loader_test.py:34 | the regex parser's tree of `a!` loads as UntilEmpty(Literal('a')) |
| LoaderExamples.LoadsNot | core/loader_test.py:35 | the regex parser's tree of `^a` loads as Not(Literal('a')) |
| LoaderExamples.RejectsInvalidSpecial | core/loader_test.py:42-49 | the regex parser's tree of `\a` fails to load, with "invalid special char " |

## Left out

- Rendering is not modelled: `__str__`, `__repr__`, `str_line` and `_repr` produce text only.
- Exception classes are not modelled. Errors are one `Error` tree of message, rule name, state
  and children. Which Python class raised an error is not tracked, and neither is the
  re-wrapping into the processor's `error_type` (core/processor.py:373-377).
- Lexer `Not` (core/lexer.py:196-207) catches only lexer errors. `UntilEmpty` in core/stream.py
  catches only stream errors. In the model every rule failure is caught, because every failure
  comes from the same engine.
- Error messages that interpolate values (a rule's text, a state's text) are modelled by their
  text up to the first interpolated value: `f'Not {self} successfully applied child {self.child}'`
  is `"Not "`.
- Results.Detach: converting an error between state types drops its states. Each loader error
  is raised over the loader's own state type.
- Non-termination is modelled by fuel. A run that uses up its fuel ends in `OutOfFuel` or
  `LoadAborted` rather than looping forever, and `ApplyFuel` shows that fuel never changes a
  finished outcome.
- Parser.IdsRefFails: the parser test at core/parser_test.py:21 writes `Ref('id')` for a lexer
  token. No parser rule is named `id`, and the code never resolves a `Ref` to a lexer rule. So
  as written the lookup fails. The model follows the code and proves the failure;
  `Parser.IdsExample` uses the literal token rule the test evidently means.
- The loader tests' grammar operators `*`, `+`, `?` and `!` are not part of the grammar
  lexer's operators at core/loader.py:218. Those test tables are not modelled.
- Loader.LoadLexRule: the load_lex_rule table of core/loader_test.py is proved on the parse
  trees the regex parser gives for each row (`LoaderExamples`), not from the regex text. Running
  the bootstrap regex parser on concrete text is beyond what the verifier unfolds.
- Loader.LoadParser: the grammar table of core/loader_test.py:55-127 (grammar text to a parser
  value) is not proved, since it needs the grammar parser run on concrete text. A loaded grammar
  is tied to its declarations instead: the lexer rules and parser rules are their folds, and
  the root is the first parser declaration's name.
- Python's `str.startswith` and `in` on strings are modelled as sequence prefix and substring
  tests. `string.whitespace` is a fixed set of six characters.
- Duplicate rule names overwrite, as Python dicts do: `Declares` folds the declarations in
  order, so the last declaration of a name gives its rule, and an ordered map keeps the place of
  the first.
- Lexer.TokenOf: the two `assert`s of `_convert_result` (core/lexer.py:136 and 139) become a
  failed conversion: a token result without exactly one named match, an empty rule name, or no
  characters gives a non-`Lexed` outcome. Which Python exception is raised is not tracked.
- Lexer.NotNegates: when the child matches, core/lexer.py:204-207 builds a `StateError` with a
  `state_value=` argument, but `StateError` has a `state` field and no `state_value`
  (core/processor.py:93-96). As written, that construction raises a `TypeError`. The model
  makes `Not` fail at the state, which is the failure core/lexer_test.py:176-185 expects for
  `hh`.