# Harlowe passage markup, modelled in Dafny

This project models the core of `harlowe.py`. That module reads and rewrites the
passages of a Twine 2 story written in the Harlowe story format. The model covers:

- **The tokenizer.** `tokenize` and its five handlers (`_parse_variable`,
  `_parse_hook`, `_parse_link`, `_parse_macro`, `_parse_nested_brackets`) turn
  passage text into a list of strings and node objects.
- **The nodes and their serialisers.** These are variables, hooks, links and macros,
  with `__str__` and `escape_list`.
- **The two escaping codecs.** One is the HTML entity escape Harlowe uses. The other
  is the backslash escape of quoted macro literals.
- **The `modify_text` visitor.** It applies a text function to the prose of a passage
  and to the quoted literals in macro code.
- **`HarlowePassage`.** It keeps the raw contents and the parsed token list, and
  serialises back to a `<tw-passagedata>` element.

Every regular expression of the module is a hand-written scanner:
- the tokenizer's patterns (identifiers, macro names, hook name tags, link contents, the
  start and stop token search, the verbatim end) are in `scanners.dfy`;
- `escape_sequence` (harlowe.py:66) is `Escaping.EscapeSequenceLength` in `escaping.dfy`;
- `strip_symbols_re` (harlowe.py:400) is `Nodes.StripSeparators` in `nodes.dfy`;
- `string_re` (harlowe.py:425) is `TextRewrite.LiteralEnd` in `text_rewrite.dfy`.

## Modules

| File | Module | What it holds |
|---|---|---|
| `base.dfy` | `Base` | `Option`, `Result`, the exceptions the tokenizer can raise, and the suffix relation |
| `escaping.dfy` | `Escaping` | The HTML escape and its decoder, and the string-literal escape and unescape |
| `scanners.dfy` | `Scanners` | The tokenizer's regular expressions: identifiers, macro names, hook name tags, link contents, the start and stop token search, and the verbatim end |
| `nodes.dfy` | `Nodes` | The `Node` datatype, canonical macro names, `_append_with_string_merge` (`Merged`), and printing (`Print`, `PrintNode`) |
| `tokenizer.dfy` | `Tokenizer` | `tokenize` and the handlers, as functions, plus the `Tokenize` method with its `while` loop |
| `text_rewrite.dfy` | `TextRewrite` | The string-literal rewrite in macro code and the `modify_text` visitor |
| `passage.dfy` | `Passages` | The `Passage` class, `__str__`, `parse_contents` and `modify_text` |
| `lossless.dfy` | `Lossless` | When tokenizing loses nothing: every name tag is kept, and every macro is closed |
| `roundtrip_parts.dfy`, `roundtrip.dfy` | `RoundTripParts`, `RoundTrip` | Printing the tokens gives back the escaped input |
| `parse_facts.dfy`, `shapes.dfy` | `ParseFacts`, `Shapes` | The parse shape of each kind of markup, for arbitrary words |
| `shape_examples.dfy`, `print_examples.dfy`, `roundtrip_examples.dfy` | `ShapeExamples`, `PrintExamples`, `RoundTripExamples` | The facts the module's tests pin down |
| `findings.dfy` | `Findings` | The two defects described under Findings |

### How the Python maps to Dafny

- **Token lists.** A token list is a `seq<Node>`. A bare Python string in it is
  `Text(s)`.
- **Exceptions.** A Python exception is a `Fail(ParseError)` result.
- **`None` remainders.** A `None` remainder is the empty string.
- **Serialising.** `str()` returns `Option<string>`. `None` stands for the
  `AttributeError` that printing a macro named by a variable raises.
- **Imperative code.** Code the module runs step by step is written as methods:
  - `Tokenizer.Tokenize`, with its `while` loop;
  - `Tokenizer.AppendAll`, the merge loop;
  - `Tokenizer.ParseNestedBrackets`;
  - `TextRewrite.ModifyMacroCode`;
  - the `Passages.Passage` class.

  Each method is proved equal to the function that specifies it.

## Model

| member | source | states |
|---|---|---|
| `Escaping.ReplaceAll` | harlowe.py:119-123 | After `str.replace` of a character by a text that does not contain it, the character no longer occurs |
| `Escaping.ReplaceAllConcat` | harlowe.py:119-123 | `str.replace` of one character works piecewise: replacing in `a + b` is replacing in `a`, then in `b` |
| `Escaping.EscapeHtmlStepsIsEscape` | harlowe.py:119-123 | The five replacements run in order, `&` first, equal the escape of each character on its own. No entity is escaped twice |
| `Escaping.EscapeHtmlConcat` | harlowe.py:119-124 | The HTML escape of a concatenation is the concatenation of the escapes, so `escape_list` followed by a join is the escape of the joined text |
| `Escaping.EscapeHtmlWellEscaped` | harlowe.py:119-124 | Escaped text holds no `<`, `>`, `"` or `'`. Every `&` in it starts one of `&amp;`, `&lt;`, `&gt;`, `&quot;` and `&#39;` |
| `Escaping.UnescapeEscapeHtml` | harlowe.py:119-124 | Decoding the five entities, `&amp;` last, gives back the text that was escaped |
| `Escaping.EscapeUnescapeHtml` | harlowe.py:119-124 | Every well-escaped text is the escape of its decoding, so the escape is a bijection onto well-escaped text |
| `Escaping.EscapeStringStepsIsEscape` | harlowe.py:79-94 | Doubling every backslash and then escaping the surrounding quote equals escaping each character on its own. The other quote mark is left alone |
| `Escaping.EscapeSequenceLength` | harlowe.py:66-73 | An escape sequence the decoder recognises is at least two characters long and lies inside the text |
| `Escaping.OctalBound` | harlowe.py:70 | An octal escape of one, two or three digits has a value below 8, 64 or 512 |
| `Escaping.UnescapeEscapeString` | harlowe.py:56-94 | Unescaping a string escaped for either quote mark gives back the original string, whatever the hex and name decoder does |
| `Nodes.LowerChar` | harlowe.py:401 | Lower-casing leaves no upper-case letter, fixes every other character, and maps `-` and `_` to themselves only |
| `Nodes.Lower` | harlowe.py:401 | Lower-casing a name lower-cases each character in place |
| `Nodes.StripSeparators` | harlowe.py:401 | The result keeps characters of the name only, and none of them is `-` or `_` |
| `Nodes.CanonicalName` | harlowe.py:390-404 | A canonical macro name holds no `-`, no `_` and no upper-case letter |
| `Nodes.NewMacro` | harlowe.py:390-404 | A macro keeps its source name and code. A plain name gets its canonical form, and a variable name is kept as its own canonical name |
| `Nodes.CanonicalNameIdempotent` | harlowe.py:401 | Canonicalising a canonical name changes nothing |
| `Nodes.CanonicalNameIgnoresCase` | harlowe.py:401 | Names that differ only in letter case have the same canonical name |
| `Nodes.CanonicalNameConcat` | harlowe.py:401 | The canonical name is computed piece by piece |
| `Nodes.CanonicalNameIgnoresSeparator` | harlowe.py:401 | Inserting a `-` or `_` anywhere in a name does not change its canonical name |
| `Nodes.Merged` | harlowe.py:40-53 | Appending adds at most one element. The last element is a string exactly when the appended item is one |
| `Nodes.MergedAll` | harlowe.py:40-53 | Appending items one by one never shrinks the list, and a non-empty batch leaves it non-empty |
| `Nodes.MergedNoAdjacentText` | harlowe.py:40-53 | Appending to a list with no two adjacent strings keeps that property |
| `Nodes.MergedAllNoAdjacentText` | harlowe.py:40-53 | The same holds for appending a whole batch |
| `Nodes.MergedDeepFlat` | harlowe.py:40-53 | The property holds at every depth (inside hooks, links and macros) and survives one append |
| `Nodes.MergedAllDeepFlat` | harlowe.py:40-53 | The deep property survives appending a batch of items that each satisfy it |
| `Nodes.PrintConcat` | harlowe.py:127-135 | Serialising a token list is the concatenation of its items' serialisations, failing if any item fails |
| `Nodes.MergedPrintsSame` | harlowe.py:40-53 | Merging two strings does not change what the list serialises to |
| `Nodes.MergedAllPrintsSame` | harlowe.py:40-53 | Appending with merging serialises like plain concatenation |
| `Scanners.PropertyNameLength` | harlowe.py:22 | An identifier is the maximal run of word characters, and it matches exactly when that run contains a letter |
| `Scanners.PlainNameLength` | harlowe.py:31 | A plain macro name is a start character, then tag characters, immediately followed by `:` |
| `Scanners.MatchMacroName` | harlowe.py:31-32 | A macro name token is the plain name or `$` plus an identifier, followed by `:`. The plain name is tried first, and the match covers exactly the name and the colon |
| `Scanners.MatchLeftTag` | harlowe.py:471-476 | After a bar opener, a left name tag matches exactly when the maximal run of tag characters is followed by `>[`. The tag is that run, and it may be empty |
| `Scanners.MatchRightTag` | harlowe.py:486-490 | After `]<`, a right name tag matches exactly when the maximal run of tag characters is followed by a bar. The tag is that run |
| `Scanners.LastSplit` | harlowe.py:34 | Finds the rightmost `->` before a bound, or reports correctly that there is none |
| `Scanners.FirstSplit` | harlowe.py:34 | Finds the leftmost `<-` after a bound, or reports correctly that there is none |
| `Scanners.SplitLink` | harlowe.py:34 | Splits link contents at the rightmost `->` with text on both sides, else at the leftmost such `<-`, else not at all. The pieces join back to the contents |
| `Scanners.MatchLink` | harlowe.py:499-504 | A link matches contents free of `]` followed by `]]`, and splits them with `SplitLink` |
| `Scanners.VerbatimEnd` | harlowe.py:648-649 | The verbatim body ends at the first backtick after at least one character. The body holds no newline |
| `Scanners.FindTrigger` | harlowe.py:620 | The search stops at a character that can start a start or stop token |
| `ParseFacts.FindTriggerFirst` | harlowe.py:620 | The search finds the leftmost such character, and finds none exactly when the text has none |
| `Scanners.BracketTrigger` | harlowe.py:588-598 | A `[` starts a link (`[[` not followed by `[`), a hook (`[` not followed by `[`), or a run of three or more brackets |
| `Scanners.TriggerAt` | harlowe.py:588-598 | The token found at a position: a stop token exactly where the stop pattern matches, preferring `]<` to `]`, else the start token the pattern's order selects |
| `Scanners.TriggerAtMatches` | harlowe.py:588-598 | The token found is what the input holds at that position, and each token kind has its exact spelling and lookahead |
| `Tokenizer.ParseVariable` | harlowe.py:455-461 | `$` gives a variable exactly when an identifier follows. The variable's name is the whole run of word characters after the `$`, and exactly that run is consumed. Otherwise `$` is plain text and nothing is consumed |
| `Tokenizer.TokenizeFrom` | harlowe.py:601-668 | Without a stop pattern, tokenizing consumes its whole input, and for non-empty input it yields a non-empty list. With one, it stops at a `]`, `]<` or `)` token and hands back a shorter remainder. The only exceptions are the two the module can actually raise |
| `Tokenizer.TokenizeAt` | harlowe.py:620-663 | The same, from the token found at a given position |
| `Tokenizer.StartFrom` | harlowe.py:636-659 | Running a start token's handler and then going on tokenizing keeps the same guarantees |
| `Tokenizer.Resume` | harlowe.py:638-641 | Appending a handler's nodes and tokenizing its remainder keeps the same guarantees |
| `Tokenizer.Dispatch` | harlowe.py:636-659 | The handler a start token selects returns nodes and a remainder shorter than the token plus its text. The link fallback and the remainder checks never raise |
| `Tokenizer.ParseHook` | harlowe.py:464-496 | A hook handler returns one node. A hook that fails to close is the opening character as text, with nothing consumed. A `[` hook carries at most a right name tag |
| `Tokenizer.HookBody` | harlowe.py:478-496 | A hook keeps the left tag unless a right tag after the body replaced it. Anything that is not a hook is the opener as text, with nothing consumed |
| `Tokenizer.ParseLink` | harlowe.py:499-534 | A link handler returns one node, and when the link grammar matches it leaves exactly the text after the `]]`. Its leftover-text errors are never raised |
| `Tokenizer.ParseMacro` | harlowe.py:537-566 | A macro handler returns one node, or two when a hook is bound after the macro, and a remainder no longer than its input. It raises no error of its own |
| `Tokenizer.NestedBrackets` | harlowe.py:569-585 | A run of brackets gives exactly one node, so the multiple-tokens error is never raised. It fails only with an error tokenize can raise |
| `Tokenizer.Verbatim` | harlowe.py:645-655 | A verbatim run gives one node. It fails only with the `IndexError` of the closing backtick ending the input |
| `Tokenizer.Tokenize` | harlowe.py:601-668 | The `while` loop computes exactly `TokenizeFrom`. Its remainder is a suffix of the input, and a proper one when a stop token was matched |
| `Tokenizer.TokenizeFromSuffix` | harlowe.py:601-668 | The remainder tokenize hands back is always a suffix of its input. After a `]<` stop, so is the remainder with the `<` in front |
| `Tokenizer.DispatchSuffix` | harlowe.py:636-659 | Every handler leaves a suffix of its start token and the text after it. Only the verbatim handler may instead leave a single character |
| `Tokenizer.ParseHookSuffix` | harlowe.py:464-476 | The hook handler leaves a suffix of its input |
| `Tokenizer.HookBodySuffix` | harlowe.py:478-496 | The hook body leaves the handler's input when it does not close. Otherwise it leaves what follows the `]`, the pushed-back `<`, or the right tag |
| `Tokenizer.ParseLinkSuffix` | harlowe.py:499-534 | A link leaves the text after its `]]`. The nested-hook fallback leaves a suffix of the text from the second `[` |
| `Tokenizer.ParseMacroSuffix` | harlowe.py:537-566 | The macro handler leaves a suffix of its input |
| `Tokenizer.MacroCallSuffix` | harlowe.py:555-566 | The macro code, and a hook bound after the `)`, leave a suffix of the text after the colon |
| `Tokenizer.NestedBracketsSuffix` | harlowe.py:569-585 | A bracket run leaves a suffix of its input |
| `Tokenizer.TokenizeToken` | harlowe.py:620-663 | One pass of the loop body either finishes or leaves a shorter input whose tokenizing gives the same result |
| `Tokenizer.HandleStart` | harlowe.py:636-659 | The `try`/`except KeyError` dispatch computes `Dispatch`. Table tokens and verbatim runs go straight to their handler, and a bracket run goes through the `ParseNestedBrackets` loop |
| `Tokenizer.AppendAll` | harlowe.py:640-641 | The `for` loop of appends computes `MergedAll` |
| `Tokenizer.ParseNestedBrackets` | harlowe.py:569-585 | The loop that wraps hooks one bracket at a time computes `NestedBrackets` |
| `Tokenizer.TokenizeFromFlat` | harlowe.py:601-668 | No token list tokenize returns has two adjacent strings |
| `Tokenizer.TokenizeFromDeep` | harlowe.py:464-668 | Nor does any token list at any depth: hook contents, link text and passage names, and macro code |
| `TextRewrite.LiteralEnd` | harlowe.py:425-437 | The literal scanner stops at the surrounding quote |
| `TextRewrite.LiteralContents` | harlowe.py:425-437 | A literal's contents hold no newline, and every quote mark in them is escaped by a backslash |
| `TextRewrite.EscapedLiteralCloses` | harlowe.py:425-437 | A literal written with `_escape_string` is scanned exactly to its closing quote |
| `TextRewrite.RewriteRewritten` | harlowe.py:425-446 | Rewriting a literal that was itself produced by escaping applies the function to the original text |
| `TextRewrite.RewriteNoQuotes` | harlowe.py:425-446 | Macro code without quote marks is not changed |
| `TextRewrite.RewriteIdentity` | harlowe.py:425-446 | Rewriting macro code that holds no backslash with the identity function changes nothing |
| `TextRewrite.ModifyNode` | harlowe.py:261-452 | The function is applied to text. Variables are unchanged, and so is a link without a passage name |
| `TextRewrite.ModifyList` | harlowe.py:233-237 | Every item of a list is replaced by its modified value, and its length is kept |
| `TextRewrite.ModifyCode` | harlowe.py:418-452 | In macro code, text items have only their quoted literals rewritten, and other items are modified |
| `TextRewrite.ModifyMacroCode` | harlowe.py:418-452 | The `for` loop that builds the new macro code computes `ModifyCode` |
| `TextRewrite.ModifyKeepsShape` | harlowe.py:261-452 | The visitor changes only text. Variables, name tags, passage names, macro names and the tree's structure are the same |
| `TextRewrite.ModifyListNoAdjacentText` | harlowe.py:233-237 | A modified token list still has no two adjacent strings |
| `TextRewrite.ModifyListDeepFlat` | harlowe.py:233-237 | It has none at any depth either |
| `TextRewrite.ModifyIdentity` | harlowe.py:261-452 | With the identity function, modifying a node whose macro code holds no backslash changes nothing |
| `TextRewrite.ModifyListCompose` | harlowe.py:233-237 | When no macro code holds a quote mark, modifying twice is modifying once with the composed function |
| `Passages.HeaderAttributes` | harlowe.py:201-203 | The escaped name and tags cannot end their attribute early, and decoding gives each back |
| `Passages.StrIgnoresContents` | harlowe.py:206-209 | With a non-empty parsed token list, the serialised passage does not depend on the raw contents |
| `Passages.ParsedStrRoundTrip` | harlowe.py:201-220 | After `parse_contents`, the passage serialises to the same element as before, up to the `)` of each macro left open. When every macro is closed, the element is exactly the same |
| `Passages.Passage.constructor` | harlowe.py:156-171 | A new passage holds the five strings and no parsed contents |
| `Passages.Passage.ParseContents` | harlowe.py:216-220 | The parsed contents become the tokens of the raw contents, and the other fields are unchanged. On an exception the parsed contents stay as they were |
| `Passages.Passage.ModifyText` | harlowe.py:222-239 | Missing or empty parsed contents are parsed first, and then every token is modified. The deep no-adjacent-strings invariant is kept |
| `RoundTrip.TokenizeThenPrint` | harlowe.py:298-668 | If every hook keeps its name tags, tokenizing and printing gives back the escaped input, with a `)` inserted for each macro left open. If every macro is closed, or the output holds no `)`, the result is exactly the escaped input |
| `RoundTrip.WholeRoundTrip` | harlowe.py:601-668 | For input with no backtick and no `($` whose hooks keep their name tags (`Safe` and `RunKeeps`), tokenizing without a stop pattern leaves no remainder. The tokens print as the escaped input with `)` characters inserted, and as exactly the escaped input when `exact` holds, that is, when `RunKeeps` also says every macro reaches its `)`. Non-empty input gives a non-empty list |
| `ParseFacts.PlainText` | harlowe.py:623-626 | Text with no token character is one string token |
| `ParseFacts.StartsThenAfter` | harlowe.py:636-641 | At a start token, the handler's nodes are appended to the tokens so far, and the scan resumes on the input the handler leaves |
| `ParseFacts.SigilDeclined` | harlowe.py:455-461 | `$` without an identifier after it is appended as text, and the scan resumes right after the `$` |
| `ParseFacts.MacroDeclined` | harlowe.py:537-543 | `(` without a macro name and colon after it is appended as text, and the scan resumes right after the `(` |
| `ParseFacts.BarDeclined` | harlowe.py:464-476 | A bar without a tag and `>[` after it is appended as text, and the scan resumes right after the bar |
| `ParseFacts.HookUnclosed` | harlowe.py:478-482 | `[` whose body never reaches a `]` is appended as text, and the scan resumes right after the `[` |
| `ParseFacts.TextThenStop` | harlowe.py:628-663 | Text before a stop token is emitted, and the stop token and the rest are handed back |
| `ParseFacts.VariableAlone` | harlowe.py:455-461 | `$name` is one variable |
| `ParseFacts.MacroAlone` | harlowe.py:537-566 | `(name:)` is one macro with a canonical name and no code |
| `ParseFacts.EmptyLink` | harlowe.py:509-522 | `[[]]` is a link with empty text and an empty passage name on the left |
| `ParseFacts.PlainHook` | harlowe.py:464-484 | `[text]` is an anonymous hook holding the text |
| `ParseFacts.NestedFallback` | harlowe.py:499-507 | `[[x]y]` is a hook whose first child is a hook holding `x` |
| `ParseFacts.RightTagHook` | harlowe.py:484-490 | `[x]<tag` followed by a bar is a hook with the right name tag `tag` |
| `ParseFacts.LeftTagHook` | harlowe.py:471-484 | A bar followed by `tag>[x]` is a hook with the left name tag `tag` |
| `ParseFacts.VariableMacroAlone` | harlowe.py:537-566 | `($v:)` is a macro whose source and canonical names are both the variable |
| `Shapes.SimpleLink` | harlowe.py:499-534 | `[[c]]`, with no arrow in `c`, is a link with text `c` and no passage name |
| `Shapes.RightArrowLink` | harlowe.py:499-534 | `[[x->y]]` is a link from text `x` to passage `y`, written on the right |
| `Shapes.LeftArrowLink` | harlowe.py:499-534 | `[[y<-x]]` is a link from text `x` to passage `y`, written on the left |
| `Shapes.MacroBindsHook` | harlowe.py:556-566 | A hook right after a macro's `)` becomes the macro's next sibling |
| `Shapes.HyphenatedMacro` | harlowe.py:390-404 | `(a-b:)` keeps the hyphenated source name and canonicalises to the lower-cased name without the hyphen |
| `Shapes.HookHoldsLink` | harlowe.py:464-534 | A link inside a hook is a link node among the hook's contents |
| `ShapeExamples.SimpleLinkExample` | test_harlowe.py:10-16 | `[[a simple link]]` |
| `ShapeExamples.RightArrowExample` | test_harlowe.py:19-25 | `[[the stars my->destination]]`: text `the stars my`, passage `destination` |
| `ShapeExamples.LeftArrowExample` | test_harlowe.py:28-34 | `[[destination<-the stars my]]`: passage `destination`, text `the stars my` |
| `ShapeExamples.RightArrowsExample` | test_harlowe.py:37-43 | `[[a->b->c->d]]` splits at the last arrow: text `a->b->c`, passage `d` |
| `ShapeExamples.LeftArrowsExample` | test_harlowe.py:46-52 | `[[d<-c<-b<-a]]` splits at the first arrow: passage `d`, text `c<-b<-a` |
| `ShapeExamples.VariableExample` | test_harlowe.py:55-60 | `$var_name` is one variable |
| `ShapeExamples.AnonymousHookExample` | test_harlowe.py:63-69 | An anonymous hook |
| `ShapeExamples.MacroBindsHookExample` | test_harlowe.py:72-80 | A macro followed by a hook |
| `ShapeExamples.NestedHookExample` | test_harlowe.py:83-90 | `[[Nested hook] ]` falls back to nested hooks |
| `ShapeExamples.HyphenatedMacroExample` | test_harlowe.py:93-102 | `(tExt-style:)` has the canonical name `textstyle` |
| `ShapeExamples.VariableMacroExample` | test_harlowe.py:105-112 | `($var_name:)` keeps the variable as both names |
| `ShapeExamples.LeftTagExample` | test_harlowe.py:115-122 | A hook with a left name tag |
| `ShapeExamples.RightTagExample` | test_harlowe.py:125-131 | A hook with a right name tag |
| `ShapeExamples.HyphenatedTagExample` | test_harlowe.py:134-140 | A name tag may hold a hyphen |
| `ShapeExamples.HookHoldsLinkExample` | test_harlowe.py:143-150 | A hook holding a link between two strings |
| `PrintExamples.SimpleLinkPrints` | test_harlowe.py:157-161 | `[[text]]` prints as written |
| `PrintExamples.RightArrowLinkPrints` | test_harlowe.py:164-168 | A right-arrow link prints as `[[text-&gt;dest]]`, with quotes escaped |
| `PrintExamples.LeftArrowLinkPrints` | test_harlowe.py:171-175 | A left-arrow link prints as `[[dest&lt;-text]]` |
| `PrintExamples.MacroPrints` | test_harlowe.py:178-189 | A macro prints as `(name:code)`, with its code escaped |
| `PrintExamples.HookPrints` | test_harlowe.py:192-196 | An untagged hook prints as `[...]` |
| `PrintExamples.RightTagHookPrints` | test_harlowe.py:199-203 | A right-tagged hook prints as `[...]&lt;tag` and a bar |
| `PrintExamples.LeftTagHookPrints` | test_harlowe.py:206-210 | A left-tagged hook prints as a bar and then `tag&gt;[...]` |
| `PrintExamples.HookOfText` | harlowe.py:298-307 | How a hook holding one string prints, with each tag placement. An empty tag is dropped |
| `PrintExamples.LinkOfText` | harlowe.py:343-360 | How a link holding one string prints, with and without a passage name |
| `RoundTripExamples.ParsedStrSame` | harlowe.py:201-214 | A passage whose tokens print as its escaped contents serialises the same parsed or not |
| `RoundTripExamples.RightArrowPassage` | test_harlowe.py:251-260 | A passage with a right-arrow link serialises the same after parsing |
| `RoundTripExamples.LeftArrowPassage` | test_harlowe.py:263-272 | The same for a left-arrow link |
| `RoundTripExamples.MacroPassage` | test_harlowe.py:275-284 | The same for a macro with a quoted argument |
| `RoundTripExamples.AnonymousHookPassage` | test_harlowe.py:287-296 | The same for an anonymous hook |
| `RoundTripExamples.RightTagPassage` | test_harlowe.py:299-308 | The same for `Named hook [ that only contains text ]&lt;right tag|`, which decodes to `]<right tag|`. `right tag` holds a space, so it is not a name tag: the `<right tag|` stays text |
| `RoundTripExamples.LeftTagPassage` | test_harlowe.py:311-320 | The same for `Named hook |left tag&gt;[ that only contains text ]`, which decodes to `|left tag>[`. `left tag` holds a space, so it is not a name tag: the `|left tag>` stays text |
| `Findings.BothTagsHook` | harlowe.py:471-494 | A bar, then `a>[x]<b`, then a bar, is tokenized as one hook that holds only the right tag `b` |
| `Findings.BothTagsNotKept` | harlowe.py:471-494 | Such a hook falls outside the round-trip condition |
| `Findings.BothTagsLosesLeft` | harlowe.py:298-307 | Printing it does not give back the escaped input |
| `Findings.BothTagsExample` | harlowe.py:298-307 | A bar, then `a>[x]<b`, then a bar, prints as `[x]&lt;b` and a bar |
| `Findings.HookBodyIntended` | harlowe.py:478-496 | The corrected hook body agrees with `_parse_hook` when there is no left tag. With a left tag, the hook keeps that tag on the left and never takes a right one |
| `Findings.ParseHookIntended` | harlowe.py:464-496 | The corrected handler is `_parse_hook` for `[`. A hook opened by a bar carries the left tag written before `>[` |
| `Findings.BothTagsIntendedRoundTrip` | harlowe.py:464-496 | Under the corrected handler, a bar, `a>[x]<b` and a bar give a hook tagged `a` on the left, then the text `<b` and a bar. These tokens print back as the escaped input |
| `Findings.VerbatimAtEndInput` | harlowe.py:645-655 | A backtick run whose closing backtick ends the input raises `IndexError` |
| `Findings.VerbatimDropsRest` | harlowe.py:645-655 | After a verbatim run, only one character of the rest of the input is kept |
| `Findings.VerbatimExample` | harlowe.py:645-655 | `` `verbatim` text `` keeps only `" "` after the run |
| `Findings.VerbatimIntended` | harlowe.py:645-655 | The corrected handler returns one string node and a remainder that is a suffix of its input |
| `Findings.VerbatimIntendedRestores` | harlowe.py:645-655 | The corrected handler's node and remainder join back to its input |
| `Findings.VerbatimIntendedKeepsRest` | harlowe.py:645-655 | The corrected handler keeps all the input after the closing backtick |

## Left out

- Nodes.LowerChar, Nodes.Lower, Scanners.PropertyNameLength: the word characters
  (`Scanners.IsWordChar`) and lower-casing cover only ASCII and the Latin-1 letters U+00C0
  to U+00FF, plus U+0150, U+0151, U+0170 and U+0171. Python's `\w` and `str.lower` are
  full Unicode, so names such as `$变量` or `(Ω:)` tokenize differently.
- Escaping.UnescapeEscapeString: `Escaping.DecodeEscape` decodes `\x`, `\u`, `\U` and `\N{...}`
  through a `decode` parameter. The `unicode-escape` codec and the Unicode name database are
  outside the model, so the `UnicodeDecodeError` a malformed escape raises is not modelled.
- Passages.Passage.constructor: `contents=None` is modelled as the empty string, which
  `__str__` treats the same way (`elif self.contents`). `tags` is always a string in the
  model. A `tags` of `None` makes `__str__` raise `AttributeError`, and an absent `tags`
  attribute makes `from_element` raise `KeyError`; neither case is modelled.
- TextRewrite.ModifyNode, TextRewrite.ModifyList, Passages.Passage.ModifyText: these
  rebuild node values. The in-place mutation of node objects, and token lists shared
  between nodes, are not modelled.
- RoundTrip.WholeRoundTrip, RoundTrip.TokenizeThenPrint, Passages.ParsedStrRoundTrip: the round trip requires three
  things of the input:
  - no backtick;
  - no `($`;
  - every hook keeps its name tags.

  A hook with both a left and a right tag loses the left one (see Findings). A hook with an
  empty tag, as in `|>[x]` or `[x]<|`, prints without it. A macro named by a variable cannot
  be printed at all.
  Without the closing condition, the printed text is the escaped input with `)` characters
  inserted: a macro with no `)` takes the rest of the text it is tokenized from, and prints a `)` after it.
- TextRewrite.RewriteIdentity, TextRewrite.ModifyIdentity: stated only for macro code
  without a backslash. Rewriting decodes an escape such as `\n` but re-encodes only
  backslashes and quote marks, so even the identity function changes such a literal.
- TextRewrite.ModifyListCompose: stated only for macro code without quote marks, where no
  literal is rewritten. Inside a literal, a decoded escape can leave a newline, and the
  second pass then scans that literal differently.
- **XML parsing.** `HarlowePassage.from_string`, `from_element`, `parse_harlowe_html` and
  `reconstruct_harlowe_html` parse and emit XML through html5lib and lxml, which are outside
  the model.
- **Unused state.** The class-level `destinations` and `parents` sets and `hook_count` are
  never updated by the code modelled. The unused `ampersand_re` pattern is left out.
- **Other files.** `helper_functions.py` (a regular-expression cache) is not part of this
  model, and neither are the scripts `check_story_links.py`, `smartify_story_entities.py`
  and `scratch.py`. `build_link_graph` and `smartify_entities` are not defined in any file
  of the repository, so the text function of `modify_text` is an arbitrary parameter.
- **The `RuntimeError` for an unknown start token.** It cannot be reached, because every
  start token has a handler, so it has no error value.

## Findings

| source | as written | input that shows it | evidently intended | confidence | as-written member | corrected member |
|---|---|---|---|---|---|---|
| harlowe.py:471-494 | `_parse_hook` for a bar opener keeps the left tag, but a right tag after the body replaces it, and `__str__` prints only that one | A bar, then `a>[x]<b`, then a bar: one hook with tag `b` on the right, printed as `[x]&lt;b` and a bar, so the left tag `a` is lost | A hook keeps the tags it was written with, so that printing the tokens gives back the escaped input | not executed | `Findings.BothTagsExample` | `Findings.BothTagsIntendedRoundTrip` |
| harlowe.py:652 | After a verbatim run, the input is set to the character at the end of the match (indexing), not to the text after it (slicing) | `` `x` `` raises `IndexError`. `` `verbatim` text `` keeps only `" "` of `" text"` | The input goes on after the closing backtick | not executed | `Findings.VerbatimExample` | `Findings.VerbatimIntendedRestores` |
