# templant core in Dafny

templant translates templates between template languages through a language-neutral
intermediate representation (IR). A front-end (`parse`) turns template text into a list of IR
nodes, and a back-end (`render`) prints a list of IR nodes in a target language. This project
models:

- the IR of `src/types.d.ts` and the identifiers of `src/ir-constants.js`
  (`Ir`, `IrConstants`);
- the Nunjucks back-end `src/langs/nunjucks/render.js` (`NunjucksRender`). This covers the
  operator fold with its precedence table, the special filters (truncate, replace, where/selectattr,
  sort), the named-parameter grouping, and every node kind, including the refusal of `break` and
  `continue`;
- the Nunjucks front-end `src/langs/nunjucks/parse.js`:
  - `NunjucksScan`: comment preprocessing into `{{ __COMMENT_<n>__ }}` placeholders, and the
    two character scanners (whitespace control and string literals);
  - `NunjucksParse`: the conversion of the parser's tree into IR, with filter chains, operators,
    conditionals and unless detection, loops and loop-variable canonicalisation, raw blocks,
    includes and assignments;
- the Liquid front-end and back-end, `src/langs/liquid/parse.js` and `src/langs/liquid/render.js`
  (`LiquidParse`, `LiquidRender`). They work on the older IR shape that these two files still
  use (`LiquidIr`);
- the entry point `src/translate.js` (`Translator`): argument checking and the header it prints.

The external parsers (liquidjs and the Nunjucks lexer and parser) are not modelled. Their output
is an input of the model: `LiquidTemplate.Template` and `NunjucksAst.NjNode` are datatypes that
hold exactly the fields the converters read. JavaScript values are `Js.Prim`. A thrown `Error` is
`Err(Thrown(message))`. Reading a property of `undefined` is `Err(TypeError(property))`.

Five places where the code as written loses template content are modelled both ways; see
"## Findings". A `Mode` parameter (`AsWritten` or `Corrected`) is passed through every
expression-level and node-level function of the Nunjucks front-end and back-end, down to the
five places where it selects the reading:

- in the back-end's operator fold, whether a right operand that binds loosely is parenthesised;
- in the front-end, which output is taken for a comment placeholder;
- in the front-end, how the base of a filter that is not a variable, lookup or literal is
  converted;
- in the front-end, how a negation in expression position is converted;
- in the front-end, how a parenthesised expression (the parser's `Group` node) is converted.

With `AsWritten` every function is the code as written; with `Corrected` it is the evidently
intended code. A lemma that takes a `mode` argument holds in both readings. A lemma that fixes
one reading says which in its row.

Where the prose design of the project and the code disagree, the model follows the code:

- The Liquid front-end and back-end use an older IR. Its outputs hold a flat `postfix` and string
  arguments, and its conditions are strings. They use neither the operator pseudo-filters nor the
  filter-name table.
- The raw-block heuristic looks for `{% raw %}` anywhere in the text up to ten characters past
  the text's column. It does not look in a bounded window before it.
- Loop variables are canonicalised only in a direct `{{ loop.x }}` output inside a `for`. They are
  not canonicalised in conditions or in filter arguments.
- `translate` rejects an empty input with the missing-input message, because `""` is falsy.

## Model

| member | source | states |
|---|---|---|
| Ir.TypeName | src/types.d.ts:25-34 | every node has one of the nine `type` tags of the IR union |
| Ir.TypeNameDiscriminates | src/types.d.ts:25-34 | two nodes have the same `type` tag exactly when they are the same kind of node |
| LiquidIr.TypeName | src/langs/liquid/render.js:15-118 | the older nodes carry the same tags as the IR union |
| IrConstants.NamePrefixes | src/langs/nunjucks/render.js:148-151 | a canonical filter name starts with `__COMPARE_` exactly for the comparisons and with `__LOGICAL_` exactly for the logical operators |
| IrConstants.NameInjective | src/langs/nunjucks/render.js:13-46 | distinct canonical filters have distinct names, so the lookup tables keyed by name are well defined |
| IrConstants.FromNameOfName | src/langs/nunjucks/render.js:13-28 | looking up a canonical filter's own name finds that filter |
| IrConstants.FromName | src/langs/nunjucks/render.js:132-133 | a name is read as a canonical filter only when it spells that filter, and a name that spells none reads as none |
| Js.IndexOf | src/langs/liquid/parse.js:164 | `indexOf(p, from)` returns the first occurrence at or after `from`, or none when there is none |
| Js.ParseIntOfNatToString | src/langs/nunjucks/parse.js:106-108 | `parseInt` reads back the decimal spelling of a comment number, whatever follows it that is not a digit and, after `0`, not an `x` or `X` that would make a hexadecimal prefix |
| Js.ParseIntOfHex | src/langs/nunjucks/parse.js:106-108 | `parseInt` reads the hexadecimal digits after a `0x` or `0X` prefix in base sixteen, up to the first character that is not one |
| Js.ParseIntOfBarePrefix | src/langs/nunjucks/parse.js:106-108 | a `0x` or `0X` prefix with no hexadecimal digit after it reads as `NaN` |
| Js.Trim | src/langs/nunjucks/parse.js:63 | `trim` returns a slice of its input with only white space before and after it, and no white space at its own ends |
| Js.TrimIsTheStrip | src/langs/nunjucks/parse.js:63 | any non-empty slice with only white space around it and none at its own ends is what `trim` returns |
| Js.StripUnique | src/langs/nunjucks/parse.js:63 | a string has at most one non-empty slice with only white space around it and none at its own ends, so the contract of `trim` fixes its result |
| Js.SplitJoin | src/translate.js:61 | splitting the newline-joined messages gives back the messages when none holds a newline |
| Js.JoinString | src/langs/liquid/parse.js:216-218 | `Array.join` prints `null` and `undefined` as nothing and any other value as its string |
| LiquidParse.SpanText | src/langs/liquid/parse.js:38-41 | an argument is the source text between its begin and end offsets |
| LiquidParse.Parse | src/langs/liquid/parse.js:7-11 | a successful parse gives one node per template, and no templates give no nodes |
| LiquidParse.ExtractCondition | src/langs/liquid/parse.js:213-219 | when the conversion succeeds, a condition is present exactly when the value and its initial operand are; an initial operand whose property list is empty gives the empty condition |
| LiquidParse.CommentContent | src/langs/liquid/parse.js:158-173 | non-empty content is the input from the end of the opening tag up to the first closing tag after it |
| LiquidParse.VariantOf | src/langs/liquid/parse.js:116-121 | `case` and `unless` select their own variants, and every other tag name selects `if` |
| LiquidParse.ConvertAll | src/langs/liquid/parse.js:7-11 | a successful conversion gives one node per template |
| LiquidParse.ConvertTemplate | src/langs/liquid/parse.js:18-207 | each token kind gives a node of its kind with its whitespace flags; text, and a tag with neither branches nor a body, always convert; an unknown kind throws `Unsupported token kind` |
| LiquidParse.ConvertBlock | src/langs/liquid/parse.js:129-156 | a tag with a body is a `capture` tag or else a loop, keeps its arguments, and has an else part exactly when there are else templates |
| LiquidParse.ConvertConditional | src/langs/liquid/parse.js:71-126 | a conditional has a subject branch for `case`, one branch per source branch, and a final branch without condition exactly when there are else templates; its first `if` condition is the tag's arguments |
| LiquidParse.ConvertIfBranches | src/langs/liquid/parse.js:95-103 | one branch per source branch, and the first one's condition is the tag's arguments |
| LiquidParse.ConvertCase | src/langs/liquid/parse.js:74-93 | a case is the subject branch without children followed by one branch per `when` |
| LiquidParse.ConvertWhens | src/langs/liquid/parse.js:83-93 | a `when` branch's condition is its quoted values joined by commas, or none when it has no values |
| LiquidParseFacts.ConvertAllAppend | src/langs/liquid/parse.js:10 | converting a concatenation concatenates the results, and the first failure wins |
| LiquidParseFacts.ConvertAllCorresponds | src/langs/liquid/parse.js:18-207 | every template's node is of the kind its token selects |
| LiquidParseFacts.ParseOne | src/langs/liquid/parse.js:7-11 | a single template parses to its own conversion |
| LiquidParseFacts.TextRoundTrip | src/langs/liquid/parse.js:20-27 | text parses and renders back to the same characters |
| LiquidParseFacts.ClosingFound | src/langs/liquid/parse.js:164 | the search for the closing tag stops at the first one after the opening tag |
| LiquidParseFacts.CommentRoundTrip | src/langs/liquid/parse.js:158-173 | a comment keeps the text between `{% comment %}` and `{% endcomment %}` and prints back as that source |
| LiquidParseFacts.UnclosedCommentIsEmpty | src/langs/liquid/parse.js:165 | a comment with no closing tag after it has empty content |
| LiquidParseFacts.ConvertOutput | src/langs/liquid/parse.js:28-67 | an output becomes its access chain and its filters, with its whitespace flags |
| LiquidParseFacts.SingleProperty | src/langs/liquid/parse.js:48-50 | a one-property path is that property |
| LiquidParseFacts.OutputRoundTrip | src/langs/liquid/parse.js:28-67 | an output of a name with one filter and one argument parses and renders back to the same source |
| LiquidParseFacts.QuotedOperand | src/langs/liquid/parse.js:56-59 | a quoted operand keeps its source text, quotes included, not its decoded value |
| LiquidParseFacts.QuotedLiteralRoundTrip | src/langs/liquid/parse.js:56-59 | a quoted literal output parses and renders back to the same source |
| LiquidParseFacts.ConditionIsAccessPath | src/langs/liquid/parse.js:213-219 | a branch condition is its property names joined by dots |
| LiquidParseFacts.LiteralConditionFails | src/langs/liquid/parse.js:216-217 | a condition whose operand is not a property path fails reading `props` |
| LiquidParseFacts.SingleText | src/langs/liquid/parse.js:20-27 | one text template converts to one text node and prints as its text |
| LiquidParseFacts.IfElsifRoundTrip | src/langs/liquid/parse.js:94-126 | an if/elsif parses and renders back with the tag's arguments and the dotted second condition |
| LiquidParseFacts.CaseRoundTrip | src/langs/liquid/parse.js:74-93 | a case with a `when` parses and renders back with the value quoted |
| LiquidParseFacts.LoopRoundTrip | src/langs/liquid/parse.js:143-155 | a loop parses and renders back, with an else part only when there are else templates |
| LiquidParseFacts.RawRoundTrip | src/langs/liquid/parse.js:175-193 | a raw block keeps the source text of its inner tokens and prints it back between `raw` and `endraw` |
| LiquidParseFacts.PlainTagRoundTrip | src/langs/liquid/parse.js:195-204 | any other tag keeps its name and arguments and prints back, with an end tag unless it is self-closing |
| LiquidParseFacts.UnsupportedKindFails | src/langs/liquid/parse.js:205-206 | an unknown token kind after convertible ones makes the whole parse throw `Unsupported token kind` |
| LiquidRender.Render | src/langs/liquid/render.js:5-7 | no nodes print as the empty string, and a single node prints as that node |
| LiquidRender.RenderNode | src/langs/liquid/render.js:14-119 | a node of a type the Liquid back-end has no case for throws `Unsupported IR node type`, and text, output and comment nodes always print |
| LiquidRenderFacts.RenderNodesAppend | src/langs/liquid/render.js:5-7 | rendering a concatenation concatenates the texts, and the first failure wins |
| LiquidRenderFacts.ForeignNodesFail | src/langs/liquid/render.js:117-118 | an assignment, raw or include node makes rendering throw `Unsupported IR node type` |
| LiquidRenderFacts.AccessPathSnoc | src/langs/liquid/render.js:31-35 | extending a path by a number appends `[n]`, and by anything else appends `.` and its text |
| LiquidRenderFacts.PropertyPathIsDotted | src/langs/liquid/render.js:31-35 | a path of property names prints as the names joined by dots |
| LiquidRenderFacts.FilterPipeSnoc | src/langs/liquid/render.js:19-30 | adding a filter at the end appends a pipe sign between spaces and the filter's text |
| LiquidRenderFacts.FilterArguments | src/langs/liquid/render.js:24-27 | a filter without arguments prints as its name, and one with arguments as `name: a, b` |
| LiquidRenderFacts.OutputTrimsReadBack | src/langs/liquid/render.js:37-39 | the whitespace flags printed on a Liquid output are read back by the Nunjucks scanner |
| LiquidRenderFacts.UnlessUsesFirstBranchOnly | src/langs/liquid/render.js:60-64 | an unless prints only its first branch |
| LiquidRenderFacts.CaseIgnoresSubjectChildren | src/langs/liquid/render.js:46-59 | a case never prints the children of its subject branch |
| LiquidRenderFacts.ConditionalsNeedABranch | src/langs/liquid/render.js:46-80 | a case or unless without branches fails, and an if without branches prints only `endif` |
| LiquidRenderFacts.IfKeywords | src/langs/liquid/render.js:65-79 | the first branch prints as `if`, a later one with a non-empty condition as `elsif`, and one without as `else` |
| LiquidRenderFacts.CaseKeywords | src/langs/liquid/render.js:46-59 | a case prints `case`, then `when` for a branch with a condition and `else` for one without, then `endcase` |
| LiquidRenderFacts.EmptyElseIsNoElse | src/langs/liquid/render.js:90-94 | an empty else list prints no else tag, exactly like an absent one |
| LiquidRenderFacts.SelfClosingDropsChildren | src/langs/liquid/render.js:106-110 | `assign`, `include`, `break` and `continue` print their opening tag only |
| LiquidRenderFacts.BlockTagEnclosesChildren | src/langs/liquid/render.js:112-115 | any other tag prints its children between its opening tag and `end` plus its name |
| NunjucksScan.Preprocess | src/langs/nunjucks/parse.js:58-65 | text without `{#` is left unchanged with no comments, and every recorded comment is trimmed |
| NunjucksScan.TrimAll | src/langs/nunjucks/parse.js:63 | each recorded comment is its body trimmed, one per body |
| NunjucksScan.StripComments | src/langs/nunjucks/parse.js:59-65 | text without `{#` is left unchanged and yields no comments |
| NunjucksScan.StripOneComment | src/langs/nunjucks/parse.js:60-65 | the first `{# ... #}` becomes placeholder `k`, and its content is recorded as comment `k`, ahead of the comments found after it |
| NunjucksScan.CommentRoundTrip | src/langs/nunjucks/parse.js:60-65 | the content of a comment printed as `{# c #}` is recovered exactly |
| NunjucksScan.FindOpen | src/langs/nunjucks/parse.js:755-763 | the first `{{` or `{%` at or after the search start, or none |
| NunjucksScan.FindClose | src/langs/nunjucks/parse.js:768-776 | the first `}}` or `%}` at or after the position, or none |
| NunjucksScan.ExtractWhitespaceControl | src/langs/nunjucks/parse.js:748-788 | without a column no tag is found and neither flag is set |
| NunjucksScan.WhitespaceControlReadsDashes | src/langs/nunjucks/parse.js:748-788 | the flags are the dashes just inside the delimiters of the first tag from ten characters before the column, and both are false without a complete tag |
| NunjucksScan.TrimsRoundTrip | src/langs/nunjucks/parse.js:748-788 | the scanner reads back the whitespace flags the back-end prints on an output or statement whose body holds no `}` |
| NunjucksScan.ShapedTagRead | src/langs/nunjucks/parse.js:781-785 | for any tag of the printed shape, the flags are its inner dashes |
| NunjucksScan.OpenFound | src/langs/nunjucks/parse.js:755-763 | the search from the column stops at the tag's opener |
| NunjucksScan.DelimitedShape | src/langs/nunjucks/render.js:202-204 | a printed tag opens with `{{` or `{%`, has a dash or a space inside each delimiter, and holds no `}` inside |
| NunjucksScan.StringLiteralAt | src/langs/nunjucks/parse.js:796-825 | a literal is found exactly when the column holds a quote; it starts with that quote and is the source text from the column |
| NunjucksScan.ExtractStringLiteral | src/langs/nunjucks/parse.js:796-825 | the character loop builds exactly the literal the scan defines |
| NunjucksScan.StringLiteralRoundTrip | src/langs/nunjucks/parse.js:806-819 | a quoted string with escapes is read back whole, up to its closing quote |
| NunjucksScan.UnterminatedLiteral | src/langs/nunjucks/parse.js:823-824 | a literal without a closing quote runs to the end of the text |
| NunjucksParse.Parse | src/langs/nunjucks/parse.js:58-75 | a root without children converts to no nodes |
| NunjucksParse.ConvertNode | src/langs/nunjucks/parse.js:99-114 | an output without children fails reading its first child, and an output whose first child stands for a comment becomes exactly that comment |
| NunjucksParse.ConvertStatement | src/langs/nunjucks/parse.js:438-494 | a node with a truthy template and a defined `ignoreMissing` becomes one include node; a node that is no handled statement, has no children and is no expression type converts to nothing |
| NunjucksParse.ConvertExprNode | src/langs/nunjucks/parse.js:603-740 | an arithmetic or logical node ends in its operator's pseudo-filter, a `not` ends in the logical-not filter, a comparison without operators fails, and a variable is a one-part chain without filters |
| NunjucksParse.ParseFilterChain | src/langs/nunjucks/parse.js:521-601 | a filter application that converts ends in at least one filter, one without an argument list fails, and any other node is a bare access chain |
| NunjucksParse.MakeFilter | src/langs/nunjucks/parse.js:546-600 | a name without a factory gives a generic filter named through the table, and a factory's filter has the factory's name, `selectattr` giving `where` |
| NunjucksParse.BuildPostfix | src/langs/nunjucks/parse.js:496-519 | no node gives no parts, a variable or a literal one part, a lookup at least one, and, as written, a negation none |
| NunjucksParse.CommentFor | src/langs/nunjucks/parse.js:99-114 | as written, an output stands for a comment exactly when its first child's value is a string holding the mark; corrected, only a variable named exactly as a placeholder whose number is in range does, and it stands for that comment |
| NunjucksParse.CommentContentAsWritten | src/langs/nunjucks/parse.js:105-113 | the content read for a placeholder is one of the recorded comments or `undefined` |
| NunjucksParse.FilterToIr | src/langs/nunjucks/parse.js:8-12 | `upper`, `lower` and `trim` map to their canonical names, and every other name passes through unchanged |
| NunjucksParse.LiteralPart | src/langs/nunjucks/parse.js:504-517 | a literal that is not a string keeps its value; a string literal is re-read from the template at its column, quotes included, when the template is non-empty, the column is known and a literal is found there, and keeps its value otherwise |
| NunjucksParse.Lookup | src/langs/nunjucks/parse.js:561-569 | a keyword is found exactly when some pair names it |
| NunjucksParse.Positional | src/langs/nunjucks/parse.js:21-47 | a factory builds the special filter of its name, `selectattr` building `where`; each field is the positional argument at its index, or absent when there is none; the word flag of truncate and the reverse flag of sort are set exactly when a second argument starts with the literal `true` |
| NunjucksParse.PlaceholderIndex | src/langs/nunjucks/parse.js:62 | a name is read as placeholder `k` only when it is exactly that placeholder's name |
| NunjucksParse.PlaceholderIndexOfName | src/langs/nunjucks/parse.js:62 | placeholder `k`'s name is read as `k` |
| NunjucksParse.CanonicalLoop | src/langs/nunjucks/parse.js:175-181 | canonicalisation keeps the chain's length and changes nothing outside a loop |
| NunjucksParse.IfChain | src/langs/nunjucks/parse.js:357-384 | an if/elif chain gives one branch per node with a condition, each with its condition, plus a last branch without a condition exactly when the chain ends in an `else` |
| NunjucksParseFacts.IfChainConverts | src/langs/nunjucks/parse.js:357-384 | an if/elif/else chain converts exactly when every condition, every body and the else part convert, and every node has a body |
| NunjucksParseFacts.IfChainBranches | src/langs/nunjucks/parse.js:357-384 | branch i holds the converted condition and body of the chain's i-th node; the final else branch holds the else part's converted children |
| NunjucksParseFacts.IfElifElse | src/langs/nunjucks/parse.js:357-384 | `if a / elif b / else` gives exactly three branches: `a`, `b`, and one without a condition |
| NunjucksParse.WithoutNot | src/langs/nunjucks/parse.js:392-394 | removing `not` keeps exactly the other filters, and a list without `not` is unchanged |
| NunjucksParseFacts.ConvertNodesAppend | src/langs/nunjucks/parse.js:86-91 | converting a concatenation concatenates the results, and the first failure wins |
| NunjucksParseFacts.OperatorNames | src/langs/nunjucks/parse.js:624-718 | each operator the parser produces maps to its canonical pseudo-filter name |
| NunjucksParseFacts.ParsableWellFormed | src/langs/nunjucks/parse.js:624-718 | every operator the front-end produces is one the back-end prints infix |
| NunjucksParseFacts.ConvertTree | src/langs/nunjucks/parse.js:624-718 | a binary expression tree converts to its left operand's chain followed by one operator filter per step, each with the right operand as its argument |
| NunjucksParseFacts.ParsedOperatorsPrintAsInfix | src/langs/nunjucks/render.js:128-145 | with the corrected back-end, any operator tree without `Group` nodes prints back with exactly the parentheses its precedence needs, in either reading of the front-end; with the corrected front-end, so does the parser's tree of that parenthesised text, `Group` nodes included |
| NunjucksParseFacts.ParsedLeftDeepPrintsAsInfix | src/langs/nunjucks/render.js:128-145 | with both sides as written, an operator tree without `Group` nodes whose right operands are all variables prints back with exactly the parentheses its precedence needs; when that text has no parentheses, the tree is the parser's tree of it |
| NunjucksParseFacts.ConvertSource | src/langs/nunjucks/parse.js:603-739 | corrected, the parser's tree of an operator text, with its parenthesised operands as `Group` nodes, converts exactly as the operator tree lowers |
| NunjucksParseFacts.MarkInPlaceholder | src/langs/nunjucks/parse.js:62 | a placeholder holds the comment mark and is followed by its number and `__` |
| NunjucksParseFacts.PlaceholderContentAsWritten | src/langs/nunjucks/parse.js:106-108 | the number after the mark of placeholder `k` selects comment `k` |
| NunjucksParseFacts.PlaceholderIsComment | src/langs/nunjucks/parse.js:99-114 | the output of placeholder `k` becomes comment `k` |
| NunjucksParseFacts.OutputOfComment | src/langs/nunjucks/parse.js:99-114 | an output whose first child stands for a comment becomes that comment, whatever follows it |
| NunjucksParseFacts.CommentThroughFrontEnd | src/langs/nunjucks/parse.js:58-114 | `{# c #}` becomes placeholder 0 in the text, converts to comment `c`, and prints back as `{# c #}` |
| NunjucksParseFacts.LookupLastWins | src/langs/nunjucks/parse.js:561-569 | a keyword given later overwrites an earlier one, and a keyword for another key changes nothing |
| NunjucksParseFacts.NotAPlaceholder | src/langs/nunjucks/parse.js:99-104 | a name without the comment mark is no placeholder |
| NunjucksParseFacts.VariableOutputRoundTrip | src/langs/nunjucks/parse.js:154-170 | `{{ v }}` with any whitespace flags converts to an output of `v` and prints back to the same text |
| NunjucksParseFacts.LiteralOutputKeepsQuotes | src/langs/nunjucks/parse.js:198-228 | a string literal output keeps its source spelling, quotes included, and prints it back |
| NunjucksParseFacts.IncludeRoundTrip | src/langs/nunjucks/parse.js:438-457 | an include keeps its path, quoted, and prints back as an include of that path |
| NunjucksParseFacts.LoopRevindexOutput | src/langs/nunjucks/parse.js:171-197 | `loop.revindex` is canonicalised inside a loop only, and prints as `loop.revindex` either way |
| NunjucksParseFacts.ForBodyInLoop | src/langs/nunjucks/parse.js:324-350 | a for loop converts its collection as an expression, and both its body and its else children inside the loop; without an else child list it has no else part |
| NunjucksParseFacts.WithoutTrailingNot | src/langs/nunjucks/parse.js:392-394 | removing a trailing `not` gives back the filters before it |
| NunjucksParseFacts.NotConditionIsUnless | src/langs/nunjucks/parse.js:386-395 | `{% if not x %}` without an else becomes an unless over `x` |
| NunjucksParseFacts.NotStep | src/langs/nunjucks/render.js:146-147 | the `not` step prefixes `not ` to the infix text |
| NunjucksParseFacts.UnlessPrintsAsIfNot | src/langs/nunjucks/render.js:211-215 | an unless prints exactly as an if whose condition ends in `not` |
| NunjucksParseFacts.NotConditionText | src/langs/nunjucks/render.js:146-147 | a condition ending in `not` prints as `not ` before the rest |
| NunjucksParseFindings.PlaceholderTextAsWritten | src/langs/nunjucks/parse.js:99-114 | as written, template text that spells placeholder `k` is taken for comment `k` |
| NunjucksParseFindings.BareMarkAsWritten | src/langs/nunjucks/parse.js:99-114 | as written, the text `__COMMENT_` alone becomes a comment printed `{# undefined #}` |
| NunjucksParseFindings.TextStaysText | src/langs/nunjucks/parse.js:143-153 | corrected, template text is text whatever it spells, unless it follows a raw opener |
| NunjucksParseFindings.PlaceholderTextCorrected | src/langs/nunjucks/parse.js:143-153 | corrected, the text of a placeholder name stays text |
| NunjucksParseFindings.FilteredSumAsWritten | src/langs/nunjucks/parse.js:521-524 | as written, in `(a + b)` piped into `upper` (the filter applied to the `Group` holding the sum) the sum is lost and only the filter is kept |
| NunjucksParseFindings.FilterStep | src/langs/nunjucks/parse.js:521-601 | a filter application converts its base, then appends the filter it names |
| NunjucksParseFindings.FilterOfExpression | src/langs/nunjucks/parse.js:521-601 | corrected, a filter on any expression appends the filter to that expression's chain |
| NunjucksParseFindings.FilteredSumCorrected | src/langs/nunjucks/parse.js:612-658 | corrected, `(a + b)` piped into `upper` keeps the sum, followed by the filter |
| NunjucksParseFindings.SimpleBaseUnchanged | src/langs/nunjucks/parse.js:521-524 | on a variable or a literal base the correction changes nothing |
| NunjucksParseFindings.HexMarkContent | src/langs/nunjucks/parse.js:105-108 | as written, the text `__COMMENT_0x1__` selects comment 1, because `parseInt` reads the hexadecimal number |
| NunjucksParseFindings.GroupedOperandLostAsWritten | src/langs/nunjucks/parse.js:735-739 | as written, `(price + tax) * quantity` loses its parenthesised sum and prints as ` * quantity` |
| NunjucksParseFindings.GroupedOperandKeptCorrected | src/langs/nunjucks/parse.js:603-739 | corrected, `(price + tax) * quantity` keeps the sum and prints back as `(price + tax) * quantity` |
| NunjucksParseFindings.NegDroppedAsWritten | src/langs/nunjucks/parse.js:735-739 | as written, a negation in expression position becomes the empty expression |
| NunjucksParseFindings.SetValueConverted | src/langs/nunjucks/parse.js:263-288 | a set with a value converts that value, whatever it is |
| NunjucksParseFindings.AssignmentPrinted | src/langs/nunjucks/render.js:276-280 | an inline assignment prints as `set name = value` |
| NunjucksParseFindings.SetNegationAsWritten | src/langs/nunjucks/parse.js:496-519 | as written, `{% set x = -v %}` assigns nothing and prints as `set x = ` |
| NunjucksParseFindings.NegAgreesWithOutput | src/langs/nunjucks/parse.js:229-245 | corrected, a negation converts in expression position exactly as it does in an output |
| NunjucksParseFindings.SetNegationCorrected | src/langs/nunjucks/parse.js:229-245 | corrected, `{% set x = -v %}` keeps `-v` and prints it back |
| NunjucksFilterFacts.PlainNameIsPiped | src/langs/nunjucks/render.js:132-154 | a filter name that does not start with `_` is no operator and is printed in the pipe |
| NunjucksFilterFacts.PlainNamePrinted | src/langs/nunjucks/render.js:155 | such a name is printed as it is |
| NunjucksFilterFacts.OnePiped | src/langs/nunjucks/render.js:154-168 | an expression with one piped filter prints as its chain, a pipe sign between spaces, and the filter |
| NunjucksFilterFacts.SpecialPiped | src/langs/nunjucks/render.js:158-165 | the same for a special filter, printed by its own renderer |
| NunjucksFilterFacts.TruncatePrintsThreeArguments | src/langs/nunjucks/render.js:53-58 | truncate always prints three arguments: the length, the word flag, and the ending, which defaults to `'...'` |
| NunjucksFilterFacts.TruncateNeedsLength | src/langs/nunjucks/render.js:54 | a truncate without a length cannot be printed |
| NunjucksFilterFacts.ReplaceArguments | src/langs/nunjucks/render.js:59-66 | replace prints the pattern and the replacement, and the flags only when they are given |
| NunjucksFilterFacts.WhereTrueIsImplied | src/langs/nunjucks/render.js:67-80 | a where with no value, or with `true` or `"true"`, prints as `selectattr(attribute)` |
| NunjucksFilterFacts.WhereValuePrinted | src/langs/nunjucks/render.js:71-78 | any other value is printed as the second argument of `selectattr` |
| NunjucksFilterFacts.SortNamedArguments | src/langs/nunjucks/render.js:81-90 | sort prints `attribute=` and `reverse=true` only when given, and the bare name when neither is |
| NunjucksFilterFacts.SortWithout | src/langs/nunjucks/render.js:86-89 | a sort without an attribute prints as `sort` or `sort(reverse=true)` |
| NunjucksFilterFacts.SortWith | src/langs/nunjucks/render.js:83-89 | a sort by an attribute prints it as a named argument |
| NunjucksFilterFacts.SortByAttributeGroupsChain | src/langs/nunjucks/render.js:170-186 | a chain of several filters with a sort by attribute is wrapped in parentheses, a chain with a sort that only reverses is not, and a single sort is not |
| NunjucksFilterFacts.ExprOfFold | src/langs/nunjucks/render.js:168-188 | the expression is the fold's infix text and pipe text, wrapped when several filters include a named parameter |
| NunjucksFilterFacts.PositionalFlagsNeedLiteralTrue | src/langs/nunjucks/parse.js:22-46 | the positional word flag of truncate and the reverse flag of sort are set only by the literal `true`, not by the string `"true"` |
| NunjucksFilterFacts.KeywordSortNeverReverses | src/langs/nunjucks/parse.js:572-578 | a sort with keyword arguments takes its attribute from the keywords and never reverses, because a keyword value is never the string `"true"` |
| NunjucksFilterFacts.KeywordWhere | src/langs/nunjucks/parse.js:579-585 | a selectattr with keyword arguments prefers the keywords and falls back to the positional arguments |
| NunjucksFilterFacts.ChainInnermostFirst | src/langs/nunjucks/parse.js:526-600 | `x` piped into `f` and then `g` converts to the chain of `x` with `f` before `g` |
| NunjucksFilterFacts.CompareReadsFirstOperator | src/langs/nunjucks/parse.js:660-688 | a comparison chain is read from its first operator only; the others change nothing |
| NunjucksFilterFacts.UnlessDropsEmptyElse | src/langs/nunjucks/parse.js:386-411 | a condition with `not` becomes an unless without the `not`, also when an empty else follows, but not when the else has content |
| NunjucksFilterFacts.UnlessConditionIsPositive | src/langs/nunjucks/parse.js:386-411 | a recognised unless has one branch and no `not` left, and an if keeps its branches unchanged |
| NunjucksFilterFacts.RawText | src/langs/nunjucks/parse.js:116-141 | text after a raw opener becomes a raw node without whitespace flags |
| NunjucksFilterFacts.RawOpenerSeen | src/langs/nunjucks/parse.js:118-123 | both spellings of the raw opener just before the text are seen |
| NunjucksFilterFacts.PlainTextStaysText | src/langs/nunjucks/parse.js:143-153 | text with no raw opener before it and no comment mark stays text |
| NunjucksRender.Render | src/langs/nunjucks/render.js:97-99 | no nodes print as the empty string, and a single node prints as that node |
| NunjucksRender.RenderNode | src/langs/nunjucks/render.js:196-324 | a `break` or `continue` tag throws the unsupported-statement message, and text, comment and raw nodes always print |
| NunjucksRender.RenderExpr | src/langs/nunjucks/render.js:101-191 | an expression without filters prints as its access chain |
| NunjucksRender.RenderFilter | src/langs/nunjucks/render.js:128-167 | an infix step leaves the pipe text alone; a pipe step leaves the infix text and the last precedence alone and lengthens the pipe text |
| NunjucksRender.InlineStep | src/langs/nunjucks/render.js:132-153 | after an operator step the last precedence is that operator's, and after any other infix step (a `not`, or a `__COMPARE_` or `__LOGICAL_` name without a symbol) it is unchanged |
| NunjucksRender.Grouped | src/langs/nunjucks/render.js:137-144 | corrected, each argument is parenthesised exactly when it needs grouping, so arguments that need none print as they are |
| NunjucksRender.OperatorOf | src/langs/nunjucks/render.js:13-28 | a filter name denotes an operator exactly when it is that operator's canonical name and the operator has a symbol |
| NunjucksRender.OperatorOfName | src/langs/nunjucks/render.js:132-133 | an operator's own name denotes it |
| NunjucksRender.OperatorsArePrecedenced | src/langs/nunjucks/render.js:13-46 | exactly the operators with a symbol have a precedence, from 1 to 5 |
| NunjucksRender.RenderPostfixSnoc | src/langs/nunjucks/render.js:106-123 | extending an access chain appends the new element's text |
| NunjucksRender.RevindexOnlyOnLoop | src/langs/nunjucks/render.js:115-120 | the canonical reverse index prints as `revindex` only on the loop variable |
| NunjucksRender.LastOperatorSnoc | src/langs/nunjucks/render.js:128-145 | the last operator of a chain is the latest filter that denotes one |
| NunjucksRenderFacts.RenderNodesAppend | src/langs/nunjucks/render.js:97-99 | rendering a concatenation concatenates the texts, and the first failure wins |
| NunjucksRenderFacts.UnsupportedStatementsFail | src/langs/nunjucks/render.js:298-303 | a `break` or `continue` anywhere after printable nodes makes rendering throw the unsupported-statement message |
| NunjucksRenderFacts.FailingHead | src/langs/nunjucks/render.js:97-99 | a node that fails makes the list fail with its error |
| NunjucksRenderFacts.UnlessUsesFirstBranchOnly | src/langs/nunjucks/render.js:211-215 | an unless prints as `if not` over its first branch, and later branches are never printed |
| NunjucksRenderFacts.EmptyConditionals | src/langs/nunjucks/render.js:211-247 | an unless or a case without branches fails, and an if without branches prints only `endif` |
| NunjucksRenderFacts.RenderPlain | src/langs/nunjucks/render.js:106-123 | an expression without filters prints as its access chain |
| NunjucksRenderFacts.RenderEqExpr | src/langs/nunjucks/render.js:223 | the case subject and a `when` value print joined by ` == ` |
| NunjucksRenderFacts.EqBranches | src/langs/nunjucks/render.js:220-229 | each `when` branch becomes an if branch comparing the subject with its value |
| NunjucksRenderFacts.CaseIsIfChain | src/langs/nunjucks/render.js:216-231 | a case prints exactly as the if chain that compares the subject with each `when` value |
| NunjucksRenderFacts.WhenIsIfBranch | src/langs/nunjucks/render.js:220-228 | one `when` prints as the if branch comparing the subject with its value |
| NunjucksRenderFacts.EmptyElseIsNoElse | src/langs/nunjucks/render.js:257-261 | an empty else list prints no else tag, exactly like an absent one |
| NunjucksRenderFacts.BlockAssignment | src/langs/nunjucks/render.js:272-275 | a block assignment prints its body between `set` and `endset`, and fails without a body |
| NunjucksRenderFacts.UnfoldFilters | src/langs/nunjucks/render.js:128-167 | the fold applies the first filter, then the rest |
| NunjucksRenderFacts.InlineFrame | src/langs/nunjucks/render.js:132-153 | infix filters never touch the pipe text and do not depend on it |
| NunjucksRenderFacts.PipeFrame | src/langs/nunjucks/render.js:154-166 | pipe filters never touch the infix text or the last precedence and do not depend on them |
| NunjucksRenderFacts.FoldSeparates | src/langs/nunjucks/render.js:128-168 | the fold succeeds exactly when both kinds succeed apart, and its result is the infix text of one and the pipe text of the other |
| NunjucksRenderFacts.OperatorStep | src/langs/nunjucks/render.js:132-145 | an operator step groups the text so far when the last operator binds looser, then appends the symbol and the argument |
| NunjucksRenderFacts.InlineStepModes | src/langs/nunjucks/render.js:132-145 | the two readings of an infix step agree when no argument ends in an operator |
| NunjucksRenderFacts.RenderFiltersSnoc | src/langs/nunjucks/render.js:128-167 | appending a filter folds it into the result of the rest |
| OperatorPrinting.LowerShape | src/langs/nunjucks/parse.js:654-657 | a lowered tree keeps one head, has no named parameters, and its last operator is the root's |
| OperatorPrinting.FoldLowered | src/langs/nunjucks/render.js:128-145 | the corrected fold over a lowered tree gives the reference infix text and the root's precedence |
| OperatorPrinting.RenderLowered | src/langs/nunjucks/render.js:128-145 | corrected, and as written on left-deep trees, the renderer prints a lowered tree exactly as the reference printer |
| OperatorPrinting.RightOperandGroupingLost | src/langs/nunjucks/render.js:137-144 | as written, `a * (b + c)` and `a * b + c` print the same text; corrected, the grouping is kept |
| OperatorPrinting.AsWrittenGrouped | src/langs/nunjucks/render.js:144 | as written, `a * (b + c)` prints as `a * b + c` |
| OperatorPrinting.AsWrittenLeftFirst | src/langs/nunjucks/render.js:137-144 | `(a * b) + c` prints as `a * b + c` |
| OperatorPrinting.CorrectedGrouped | src/langs/nunjucks/render.js:137-144 | corrected, `a * (b + c)` keeps its parentheses |
| OperatorPrinting.RightGroupedInfix | src/langs/nunjucks/render.js:30-46 | the reference printer groups a looser right operand |
| OperatorPrinting.LeftOperandGroupingKept | src/langs/nunjucks/render.js:136-142 | `(price + tax) * quantity` keeps its grouping in either reading |
| OperatorPrinting.LeftGroupedInfix | src/langs/nunjucks/render.js:30-46 | the reference printer groups a looser left operand |
| Translator.Errors | src/translate.js:29-58 | at most three messages, and none exactly when both languages are supported and the input is a non-empty string |
| Translator.ValidateArgs | src/translate.js:29-63 | validation passes exactly on valid arguments, hands them on unchanged, and otherwise throws the messages joined by newlines |
| Translator.Translate | src/translate.js:72-78 | a translation succeeds exactly on valid arguments, and is the header naming both languages followed by the input unchanged |
| TranslateFacts.NoArgumentsReportsAll | src/translate.js:32-42 | without an argument object all three missing-argument messages are thrown, in order |
| TranslateFacts.OneMessagePerBadArgument | src/translate.js:32-58 | each bad argument contributes exactly one message |
| TranslateFacts.MessageLinesAreErrors | src/translate.js:60-62 | the thrown message splits line by line back into the messages when no language name holds a newline |
| TranslateFacts.FreeMessages | src/translate.js:33-57 | no message holds a newline when the language names hold none |
| TranslateFacts.UnsupportedSourceMessage | src/translate.js:44-48 | an unsupported source language is named in its message, followed by the supported list |
| TranslateFacts.EmptyInputIsMissing | src/translate.js:38-42 | an empty template is reported as a missing input |
| TranslateFacts.NonStringInput | src/translate.js:54-58 | an input that is present but not a string gets the missing-input message |
| TranslateFacts.TranslationText | src/translate.js:77 | a valid call returns `<!-- Translated from X to Y -->`, a newline, and the input |

## Left out

- The external parsers: liquidjs's `Liquid.parse` and the Nunjucks lexer and `Parser`. Their
  output trees are inputs of the model (`LiquidTemplate`, `NunjucksAst`), restricted to the
  fields the converters read.
- `console.warn` for an unknown Nunjucks node (src/langs/nunjucks/parse.js:492-493) is I/O. Only
  its result, an empty list, is modelled.
- The custom parser and renderer dispatch of `src/langs/index.js`, and the command-line scripts.
  `translate` is a stub in the code: it does not call any parser or renderer.
- `src/ir.js` and `src/global.d.ts` declare no behaviour and are not part of this model.
- Numbers are integers. JavaScript's floating-point numbers, `NaN` and `Infinity` are not
  modelled. The one place `NaN` matters, a missing column in the whitespace scanner, is an
  absent column.
- Object and array values inside filter arguments are not modelled. Arguments are expressions or
  primitive values.
- Strings are sequences of characters. UTF-16 surrogate pairs are not modelled.
- The spellings of the `IR_FILTERS` and `IR_LOOP_REVINDEX` identifiers, which `src/ir-constants.js`
  does not define, are chosen in the model. Only their distinctness and the
  `__COMPARE_`/`__LOGICAL_` prefixes matter, and both are proved.
- The length of truncate, the pattern and replacement of replace, and the attribute of where are
  `Option` fields in the IR, although `src/types.d.ts` declares them required. The front-end can
  leave them undefined, and the model keeps that case.
- NunjucksParse.WithoutNot: states membership in both directions, not that the order is kept.
  NunjucksParseFacts.WithoutTrailingNot gives the exact result for a trailing `not`.
- NunjucksParse.CanonicalLoop: states only the length and identity outside a loop.
  NunjucksParseFacts.LoopRevindexOutput states what it does to `loop.revindex`.
- NunjucksParse.CanonicalLoop, NunjucksRender.PartText: the loop-property tables are plain object
  literals too (src/langs/nunjucks/parse.js:14 and src/langs/nunjucks/render.js:48). Inside a
  loop, `{{ loop.constructor }}` has its second part replaced by the inherited `Object` function
  (src/langs/nunjucks/parse.js:178-179), which the back-end then prints as `.` followed by the
  function's source text. The model keeps `.constructor`.
- The back-end's throw for an IR node of unknown type (src/langs/nunjucks/render.js:321-322) has
  no counterpart: `Ir.IrNode` is a closed datatype, so every node has one of the nine known types.
  The Liquid back-end's throw for the newer node kinds is modelled (LiquidRenderFacts.ForeignNodesFail).
- NunjucksParseFacts.ParsedOperatorsPrintAsInfix: its first half is stated on operator trees without `Group` nodes.
  The parser wraps every parenthesised operand in a `Group`, which the front-end as written
  converts to an empty chain (NunjucksParseFindings.GroupedOperandLostAsWritten); only the
  corrected front-end gives the round trip for parenthesised text (the second half).
- NunjucksParseFacts.ParsedLeftDeepPrintsAsInfix: as written, the round trip holds for the text itself only when the
  text has no parentheses (`Unparenthesised`). A left operand that needs parentheses reaches the
  front-end inside a `Group`, which it drops.
- NunjucksParseFacts.TreeAst, NunjucksParseFacts.SourceAst: a comparison whose left operand is an
  unparenthesised comparison, such as `a == b == c`, is one chained `Compare` node in the
  parser. These trees nest it instead. NunjucksFilterFacts.CompareReadsFirstOperator states that
  the front-end reads only the first operator of a chained `Compare`.
- NunjucksScan.ExtractWhitespaceControl: its own contract covers only the absent column.
  NunjucksScan.WhitespaceControlReadsDashes states the whole result.
- The filter tables are plain object literals (src/langs/nunjucks/render.js:7,13,31,52 and
  src/langs/nunjucks/parse.js:8,21). A filter named like an `Object.prototype` member, such as
  `constructor` or `toString`, finds that inherited member in them, and the code then uses a
  function where it expects a name, a symbol or a factory. The model has no prototype chain:
  NunjucksRender.OperatorOf, NunjucksRender.NunjucksFilterName, Ir.IsSpecialName,
  NunjucksParse.FilterToIr and NunjucksParse.HasFactory treat such a name as a plain filter name.
- Js.ParseIntOfNatToString: requires that `0` is not followed by `x` or `X`, because `parseInt`
  then reads a hexadecimal number. Js.ParseIntOfHex and Js.ParseIntOfBarePrefix state that case.
- NunjucksRender.Render, NunjucksRender.RenderNode, NunjucksRender.RenderExpr: their contracts
  state the empty, single-node, failing and filter-free cases only. The lemmas of
  `NunjucksRenderFacts` and `NunjucksFilterFacts` state the printed text of each node kind and
  each filter kind.
- NunjucksRender.RenderFilter, NunjucksRender.InlineStep: their contracts state which part of
  the fold each step touches. NunjucksRenderFacts.OperatorStep, NunjucksRenderFacts.FoldSeparates
  and NunjucksParseFacts.NotStep state the text each step prints.
- NunjucksParse.Parse, NunjucksParse.ConvertNode, NunjucksParse.ConvertStatement: their contracts
  state the empty, comment, include and fall-through cases only. The lemmas of
  `NunjucksParseFacts` and `NunjucksFilterFacts` state the conversion of each statement kind.
- NunjucksParse.ConvertExprNode, NunjucksParse.ParseFilterChain, NunjucksParse.MakeFilter,
  NunjucksParse.BuildPostfix: their contracts state the shape of the result. NunjucksParseFacts.ConvertTree,
  NunjucksFilterFacts.ChainInnermostFirst, NunjucksFilterFacts.KeywordWhere and
  NunjucksParseFindings.FilterStep state the exact chains.
- NunjucksParse.CommentContentAsWritten: states only that the content is a recorded comment or
  `undefined`. NunjucksParseFacts.PlaceholderContentAsWritten and
  NunjucksParseFindings.HexMarkContent state which one.
- NunjucksScan.Preprocess: states the comment-free case and that every comment is trimmed.
  NunjucksScan.StripOneComment states the placeholder text and the order of the comments.
- LiquidParse.Parse, LiquidParse.ExtractCondition, LiquidParse.CommentContent: their contracts
  state the length, presence and position of the result. The lemmas of `LiquidParseFacts` state
  the converted nodes and texts.
- LiquidRender.Render, LiquidRender.RenderNode: their contracts state the empty, single-node and
  failing cases only. The lemmas of `LiquidRenderFacts` state the printed text of each node kind.

## Findings

| source | as written | input that shows it | evidently intended | confidence | as-written member | corrected member |
|---|---|---|---|---|---|---|
| src/langs/nunjucks/render.js:137-144 | only the left operand is parenthesised; the right operand is printed bare | `a * (b + c)`, lowered to `a` with filters `* (b + c)`, prints as `a * b + c` | a right operand that binds as loosely as the operator is parenthesised | not executed | OperatorPrinting.RightOperandGroupingLost | OperatorPrinting.CorrectedGrouped |
| src/langs/nunjucks/parse.js:99-114 | any output whose first child's string value contains `__COMMENT_` is a comment | the template text `__COMMENT_0__` becomes comment 0, and `__COMMENT_` alone becomes `{# undefined #}` | only a placeholder produced by preprocessing, a Symbol, is a comment | not executed | NunjucksParseFindings.PlaceholderTextAsWritten | NunjucksParseFindings.PlaceholderTextCorrected |
| src/langs/nunjucks/parse.js:521-524 | a filter's base that is not a variable, lookup or literal is dropped | the output of `(a + b)` piped into `upper` converts to `upper` on an empty chain | the base is converted as an expression, keeping the sum | not executed | NunjucksParseFindings.FilteredSumAsWritten | NunjucksParseFindings.FilteredSumCorrected |
| src/langs/nunjucks/parse.js:735-739 | a parenthesised expression, the parser's `Group` node, falls to the default case and yields an empty chain | `{{ (price + tax) * quantity }}` converts to `quantity` multiplied onto an empty chain and prints as ` * quantity` | the expression inside the parentheses is converted | not executed | NunjucksParseFindings.GroupedOperandLostAsWritten | NunjucksParseFindings.GroupedOperandKeptCorrected |
| src/langs/nunjucks/parse.js:496-519 | a negation in expression position falls to the default case and yields an empty chain | `{% set x = -1 %}` prints as `{% set x =  %}` | the negation is kept as `-1`, as the output path does | not executed | NunjucksParseFindings.SetNegationAsWritten | NunjucksParseFindings.SetNegationCorrected |
