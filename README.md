# HtmlSpanner style cascade, modelled in Dafny

HtmlSpanner turns HTML into Android spannable text. This project models
the part of it that decides how a node is styled and in what order the
resulting spans reach the text buffer:

- **CSSCompiler** turns each rule of a stylesheet into a `CompiledRule`.
  - Each selector becomes a chain of tag, class and id matchers, with the
    rightmost part first.
  - Each `property: value` declaration becomes a style updater, or none when
    the property is unknown or its value does not parse. This includes the
    `#rgb` colour short-hand, the legacy integer `font-size`, and the
    `margin` and `border` short-hands.
- **CompiledRule** applies its updaters left to right. It matches a node
  when one of its chains matches: matcher `k` of a chain is applied to
  the node's `k`-th ancestor.
- **SpanStack** holds three things:
  - the registered rules, kept in a hash set;
  - a per-node cache of the rules that matched the node when it was first
    looked up;
  - the stack of deferred span actions. These are applied last-in,
    first-out when the stack is drained.
- **StyleAttributeHandler** restyles a node from its `style` attribute
  before handing the node to the handler it wraps.
- **BorderAttributeHandler** pushes a border span for a node that has a
  `border` attribute, and then hands the node on.

Java `String.split`, `trim`, `toLowerCase`/`toUpperCase`,
`equalsIgnoreCase` and `Integer.parseInt` are modelled in `java_text.dfy`.
The split model follows Java: no match gives the whole string, and
trailing empty strings are dropped.

Collaborators whose code is not part of this model are parameters, bundled
in the `Env` datatype of `style.dfy`:

- Android's `Color.parseColor`;
- `StyleValue.parse`;
- the constant names of Style's enums;
- the spanner's `getFont`;
- the spanner's `isAllowStyling` and `isUseColoursFromStyle` flags.

A parser returns `None` where the Java code catches an
`IllegalArgumentException` or receives `null`. `Enum.valueOf` itself is
modelled as an exact-name lookup in the constant list.

The markup tree is an arena of nodes (`tag_tree.dfy`), in which every
parent comes before its children. A node reference is an index, and the
match cache is keyed by it.

The rules live in a `HashSet` whose iteration order is unspecified. Two
things follow:

- `getStyle` caches the matching rules in whatever order the set yields
  them. The model picks them with `:|` and promises only that the cache
  holds exactly the matching rules, each once.
- The cascade across rules is proved for the order the cache holds
  (`LaterRuleWins`). The code does not keep registration order, so no
  registration-order override is claimed.

The selector chain tests consecutive ancestors: parent, then grandparent,
and so on. A selector `a b` therefore matches a `b` whose parent is an
`a`. This is narrower than the CSS descendant combinator, and the model
keeps the code's behaviour.

## Model

| member | source | states |
|---|---|---|
| Styles.ValueOf | src/main/java/com/iammonk/htmlspanner/css/CSSCompiler.java:193 | `Enum.valueOf` finds a constant exactly when the name is one of the constant names, and the constant found carries that name |
| JavaText.Split | src/main/java/com/iammonk/htmlspanner/css/CSSCompiler.java:82 | `split` with a one-character pattern: a string without a delimiter comes back whole, otherwise its cuts at every delimiter with the trailing empty ones dropped; pinned down by `SplitShape` and `PiecesRoundTrip` |
| JavaText.SplitShape | src/main/java/com/iammonk/htmlspanner/css/CSSCompiler.java:82 | `split` keeps a prefix of the cuts and drops only empty ones; no piece contains a delimiter; concatenated, the pieces give the input minus its delimiters; there are at most one more pieces than delimiters; a string without a delimiter gives itself; otherwise the last piece kept is non-empty |
| JavaText.PiecesRoundTrip | src/main/java/com/iammonk/htmlspanner/css/CSSCompiler.java:82 | the cuts are made at every delimiter and nowhere else: there is one cut more than delimiters, and putting the delimiters of the input back between the cuts, in order, gives back the input |
| JavaText.PiecesAppend | src/main/java/com/iammonk/htmlspanner/css/CSSCompiler.java:82 | cutting a text at one of its delimiters gives the cuts of the part before it followed by the cuts of the part after it |
| JavaText.SplitEndsWithPiece | src/main/java/com/iammonk/htmlspanner/handlers/attributes/StyleAttributeHandler.java:41 | the non-empty text after the last delimiter is the last piece `split` returns |
| JavaText.Trim | src/main/java/com/iammonk/htmlspanner/handlers/attributes/StyleAttributeHandler.java:50-51 | `trim` never leaves a character at or below U+0020 at either end |
| JavaText.TrimExact | src/main/java/com/iammonk/htmlspanner/handlers/attributes/StyleAttributeHandler.java:50-51 | `trim` of a text between two blank runs is that text, when it has no blank at either end |
| JavaText.TrimIgnoresBlanks | src/main/java/com/iammonk/htmlspanner/css/CSSCompiler.java:143 | blanks added around a text do not change what `trim` makes of it |
| JavaText.ToLower | src/main/java/com/iammonk/htmlspanner/handlers/attributes/StyleAttributeHandler.java:50-51 | `toLowerCase` maps each ASCII capital to its small letter and keeps every other character and the length |
| JavaText.ToUpper | src/main/java/com/iammonk/htmlspanner/css/CSSCompiler.java:193 | `toUpperCase` maps each ASCII small letter to its capital and keeps every other character and the length |
| JavaText.ToLowerAppend | src/main/java/com/iammonk/htmlspanner/handlers/attributes/StyleAttributeHandler.java:50-51 | case mapping works character by character, so it distributes over concatenation |
| JavaText.EqualsIgnoreCase | src/main/java/com/iammonk/htmlspanner/css/CSSCompiler.java:148 | `equalsIgnoreCase`: the two texts are equal once both are lower-cased |
| JavaText.SplitOfBlankIsEmpty | src/main/java/com/iammonk/htmlspanner/css/CSSCompiler.java:82 | a lone blank splits into no parts at all, because trailing empty strings are dropped |
| JavaText.SplitKeepsInnerEmpty | src/main/java/com/iammonk/htmlspanner/css/CSSCompiler.java:82 | two blanks between words leave an empty part in the middle |
| JavaText.ParseIntRoundTrip | src/main/java/com/iammonk/htmlspanner/css/CSSCompiler.java:241 | `Integer.parseInt` reads back every 32-bit integer from its decimal text |
| JavaText.ParseInt | src/main/java/com/iammonk/htmlspanner/css/CSSCompiler.java:241 | a parsed integer lies in the 32-bit range, and its text is an optional sign followed by one or more decimal digits and nothing else |
| JavaText.ParseIntOfDigits | src/main/java/com/iammonk/htmlspanner/css/CSSCompiler.java:241 | conversely, an optional `-` or `+` followed by one or more digits parses to the signed value of the digits exactly when that value fits in 32 bits, and is rejected otherwise |
| Declarations.Apply | src/main/java/com/iammonk/htmlspanner/css/CSSCompiler.java:171-338 | every updater leaves all fields other than the ones it writes unchanged; the value each one writes is stated per declaration by the `*Step`/`*Steps` lemmas below |
| Declarations.WriteIsIndependent | src/main/java/com/iammonk/htmlspanner/css/CSSCompiler.java:171-338 | what an updater writes into a field does not depend on the style it is applied to |
| Declarations.LaterOverrides | src/main/java/com/iammonk/htmlspanner/css/CompiledRule.java:43-45 | an updater that writes every field an earlier one wrote cancels the earlier one |
| Declarations.ApplyAllFrame | src/main/java/com/iammonk/htmlspanner/css/CompiledRule.java:39-48 | a list of updaters changes nothing outside the fields they write |
| Declarations.LastWriterWins | src/main/java/com/iammonk/htmlspanner/css/CompiledRule.java:43-45 | when several updaters write a field, the last of them decides its value, whatever came before |
| Declarations.ApplyAllWriteIsIndependent | src/main/java/com/iammonk/htmlspanner/css/CompiledRule.java:39-48 | once a list writes a field, its result there does not depend on the input style |
| Declarations.ExpandColorShorthand | src/main/java/com/iammonk/htmlspanner/css/CSSCompiler.java:63-72 | the builder loop gives `#` and then each digit doubled for a 4-character `#` string, and the input itself otherwise |
| Declarations.ParseCSSColor | src/main/java/com/iammonk/htmlspanner/css/CSSCompiler.java:60-75 | `parseCSSColor`: the short-hand expansion handed to `Color.parseColor`; see `ShorthandColor` and `ColorPassThrough` |
| Declarations.ShorthandColor | src/main/java/com/iammonk/htmlspanner/css/CSSCompiler.java:60-75 | `#abc` parses as the same color as `#aabbcc` |
| Declarations.ColorPassThrough | src/main/java/com/iammonk/htmlspanner/css/CSSCompiler.java:60-75 | any other string reaches the platform color parser unchanged |
| Declarations.TranslateFontSize | src/main/java/com/iammonk/htmlspanner/css/CSSCompiler.java:340-360 | sizes 1..7 give 0.6 to 1.8 em in steps of 0.2 (as tenths), anything else 1.0 em; always between 0.6 and 1.8 em |
| Declarations.BorderUpdater | src/main/java/com/iammonk/htmlspanner/css/CSSCompiler.java:367-425 | `parseBorder`'s updater: the parts the token scan finds on the whitespace split; see `BorderDefinitionByFirst` and `BorderAnyOrder` |
| Declarations.ParseBorder | src/main/java/com/iammonk/htmlspanner/css/CSSCompiler.java:367-425 | the token loop with its three locals gives the updater of the scan `BorderScan` |
| Declarations.BorderScanIsByFirst | src/main/java/com/iammonk/htmlspanner/css/CSSCompiler.java:375-402 | the loop finds the first length as width, the first color not taken as width, and the first border style among the tokens left over, each at most once |
| Declarations.BorderDefinitionByFirst | src/main/java/com/iammonk/htmlspanner/css/CSSCompiler.java:367-425 | the `border` updater sets exactly the parts that this order-free reading finds |
| Declarations.BorderAnyOrder | src/main/java/com/iammonk/htmlspanner/css/CSSCompiler.java:367-425 | with one unambiguous width, color and style token, the order of the tokens does not matter |
| Declarations.UpdaterFor | src/main/java/com/iammonk/htmlspanner/css/CSSCompiler.java:173-335 | the branch of one known property: its updater writes only that property's fields, and `margin`, `border` and `font-family` always give one; what it writes is stated per property by the `*Step`/`*Steps` lemmas |
| Declarations.UpdaterForIffValueParses | src/main/java/com/iammonk/htmlspanner/css/CSSCompiler.java:173-330 | the branch of a single-field property gives an updater exactly when the value parses as that property's kind of value |
| Declarations.GetStyleUpdater | src/main/java/com/iammonk/htmlspanner/css/CSSCompiler.java:171-338 | an unknown property gives null; an updater only writes fields of its own property; `margin`, `border` and `font-family` always give an updater; the resulting style per property is stated by the `*Step`/`*Steps` lemmas |
| Declarations.UpdaterIffValueParses | src/main/java/com/iammonk/htmlspanner/css/CSSCompiler.java:171-330 | each single-field property gives an updater exactly when its value parses as that property's kind of value (color, length, enum constant, or length or integer for `font-size`) |
| Declarations.FontSizeDeclaration | src/main/java/com/iammonk/htmlspanner/css/CSSCompiler.java:229-247 | a length is used as it is; otherwise an integer goes through `translateFontSize` in em; otherwise null |
| Declarations.LegacyFontSizeDeclaration | src/main/java/com/iammonk/htmlspanner/css/CSSCompiler.java:240-242 | the decimal text of a 32-bit integer that is not a length sets the font size its HTML size stands for |
| Declarations.MarginShorthandIsLonghands | src/main/java/com/iammonk/htmlspanner/css/CSSCompiler.java:427-487 | `margin` has the effect of `margin-top`, `-right`, `-bottom`, `-left` on the tokens it shares out by count (1: all; 2: vertical, horizontal; 3: top, horizontal, bottom; 4: clockwise); a side whose token does not parse stays as it was |
| Declarations.VerticalMarginSteps | src/main/java/com/iammonk/htmlspanner/css/CSSCompiler.java:249-263 | `margin-bottom` and `margin-top` set their side to the parsed length, and leave the style as it was when the value does not parse |
| Declarations.HorizontalMarginSteps | src/main/java/com/iammonk/htmlspanner/css/CSSCompiler.java:265-281 | `margin-left` and `margin-right` set their side to the parsed length, and leave the style as it was when the value does not parse |
| Declarations.ColorSteps | src/main/java/com/iammonk/htmlspanner/css/CSSCompiler.java:173-189 | `color` and `background-color` set their field to the parsed colour, and leave the style as it was when the value is not a colour |
| Declarations.AlignSteps | src/main/java/com/iammonk/htmlspanner/css/CSSCompiler.java:191-199 | `align` and `text-align` set the alignment the value names (ignoring case), and leave the style as it was when it names none |
| Declarations.DisplayIndentSteps | src/main/java/com/iammonk/htmlspanner/css/CSSCompiler.java:287-302 | `text-indent` sets the indent to the parsed length and `display` the display style the value names; otherwise the style is kept |
| Declarations.FontSteps | src/main/java/com/iammonk/htmlspanner/css/CSSCompiler.java:201-227 | `font-weight` and `font-style` set the constant the value names (ignoring case), otherwise keep the style; `font-family` always sets the family to the font the resolver finds for the value, or clears it |
| Declarations.FontSizeSteps | src/main/java/com/iammonk/htmlspanner/css/CSSCompiler.java:229-247 | `font-size` sets a parsed length; failing that, a legacy integer size becomes its translated em size; otherwise the style is kept |
| Declarations.BorderStyleStep | src/main/java/com/iammonk/htmlspanner/css/CSSCompiler.java:304-311 | `border-style` sets the border style the value names (ignoring case), and keeps the style otherwise |
| Declarations.BorderColorStep | src/main/java/com/iammonk/htmlspanner/css/CSSCompiler.java:313-320 | `border-color` sets the border colour the value parses to, and keeps the style otherwise |
| Declarations.BorderWidthStep | src/main/java/com/iammonk/htmlspanner/css/CSSCompiler.java:322-331 | `border-width` sets the border width the value parses to, and keeps the style otherwise |
| Declarations.BorderShorthandStep | src/main/java/com/iammonk/htmlspanner/css/CSSCompiler.java:333-335 | `border` sets exactly the width, colour and style its token scan found and keeps the border parts it did not find; no other field changes |
| Declarations.ParseMargin | src/main/java/com/iammonk/htmlspanner/css/CSSCompiler.java:427-487 | `parseMargin`: the whitespace tokens shared out to the four sides, each parsed as a length; see the margin lemmas below |
| Declarations.UniformMargin | src/main/java/com/iammonk/htmlspanner/css/CSSCompiler.java:438-442 | one token sets all four sides from it |
| Declarations.TwoValueMargin | src/main/java/com/iammonk/htmlspanner/css/CSSCompiler.java:443-447 | with two tokens, the first sets top and bottom and the second right and left |
| Declarations.ThreeValueMargin | src/main/java/com/iammonk/htmlspanner/css/CSSCompiler.java:448-452 | with three tokens, the first sets top, the second right and left, the third bottom |
| Declarations.FourValueMargin | src/main/java/com/iammonk/htmlspanner/css/CSSCompiler.java:453-457 | with four tokens, they set top, right, bottom and left in that order |
| Declarations.MarginOtherCount | src/main/java/com/iammonk/htmlspanner/css/CSSCompiler.java:427-487 | with no token or more than four, no side is set, provided `StyleValue.parse("")` gives null (each side is then parsed from `""`) |
| Declarations.FoldKept | src/main/java/com/iammonk/htmlspanner/css/CSSCompiler.java:45-53 | applying the kept updaters later equals applying the declarations one by one and skipping those without an updater |
| Declarations.LastDeclarationWins | src/main/java/com/iammonk/htmlspanner/handlers/attributes/StyleAttributeHandler.java:42-58 | of several declarations whose updaters set a field, the last one decides it; later declarations without an updater, or whose updater does not write the field, leave it alone |
| Declarations.UnparseableColorKeepsEarlier | src/main/java/com/iammonk/htmlspanner/handlers/attributes/StyleAttributeHandler.java:53-57 | `color: red; color: nonsense`: a later color that does not parse leaves the earlier color in place |
| Declarations.LastColorDeclaration | src/main/java/com/iammonk/htmlspanner/handlers/attributes/StyleAttributeHandler.java:53-57 | a trailing parseable `color` declaration sets the color it names |
| TagTree.AncestorWithinDepth | src/main/java/com/iammonk/htmlspanner/css/CompiledRule.java:66-72 | a node has a `k`-th ancestor exactly when `k` is at most its depth |
| TagTree.AncestorSucc | src/main/java/com/iammonk/htmlspanner/css/CompiledRule.java:71 | the parent of the `k`-th ancestor is the `k + 1`-th |
| Selectors.ClassMatcherOf | src/main/java/com/iammonk/htmlspanner/css/CSSCompiler.java:112-120 | the ClassMatcher keeps tag and class only when the part splits on `.` into exactly two elements; see `ClassPart` and `MalformedClassPart` |
| Selectors.MatcherFromPart | src/main/java/com/iammonk/htmlspanner/css/CSSCompiler.java:92-104 | a part holding a `.` gives a class matcher, else one starting with `#` an id matcher, else a tag matcher; see `ClassPart`, `IdPart` and `TagPart` |
| Selectors.MatcherMatches | src/main/java/com/iammonk/htmlspanner/css/CSSCompiler.java:107-169 | no matcher matches a null node |
| Selectors.MatchersOfParts | src/main/java/com/iammonk/htmlspanner/css/CSSCompiler.java:82-89 | one matcher per part; see `MatcherOfPart` for which part each comes from |
| Selectors.MatcherOfPart | src/main/java/com/iammonk/htmlspanner/css/CSSCompiler.java:84-87 | matcher `i` is built from part `n - 1 - i`, so the rightmost part is tried against the node itself |
| Selectors.CreateMatchersFromSelector | src/main/java/com/iammonk/htmlspanner/css/CSSCompiler.java:77-90 | the reverse loop builds exactly those matchers from the whitespace split of the selector |
| Selectors.ClassPart | src/main/java/com/iammonk/htmlspanner/css/CSSCompiler.java:112-136 | a `tag.class` part matches when the tag is empty or equals the node's name exactly and the `class` attribute equals the class |
| Selectors.MalformedClassPart | src/main/java/com/iammonk/htmlspanner/css/CSSCompiler.java:112-120 | a part with a `.` that does not split into two elements never matches |
| Selectors.IdPart | src/main/java/com/iammonk/htmlspanner/css/CSSCompiler.java:152-169 | a `#id` part without `.` matches exactly the nodes whose `id` attribute is the rest of the part |
| Selectors.TagPart | src/main/java/com/iammonk/htmlspanner/css/CSSCompiler.java:139-150 | any other part matches by trimmed tag name, ignoring ASCII case |
| CompiledRules.CompiledRule.constructor | src/main/java/com/iammonk/htmlspanner/css/CompiledRule.java:26-33 | the rule keeps the spanner, chains, updaters and text it is given |
| CompiledRules.CompiledRule.ApplyStyle | src/main/java/com/iammonk/htmlspanner/css/CompiledRule.java:39-48 | the loop is the left fold of the updaters; with none it returns the input; fields no updater writes are unchanged |
| CompiledRules.CompiledRule.Matches | src/main/java/com/iammonk/htmlspanner/css/CompiledRule.java:51-60 | true exactly when some chain matches; a rule without chains matches nothing |
| CompiledRules.CompiledRule.MatchesChain | src/main/java/com/iammonk/htmlspanner/css/CompiledRule.java:62-75 | true exactly when matcher `k` matches the `k`-th ancestor for every `k`; an empty chain matches every node |
| CompiledRules.ChainStep | src/main/java/com/iammonk/htmlspanner/css/CompiledRule.java:62-75 | a chain matches when its first matcher takes the node and the rest matches from the parent |
| CompiledRules.ChainTooLong | src/main/java/com/iammonk/htmlspanner/css/CompiledRule.java:66-72 | a chain longer than the node's depth plus one never matches |
| Compiler.Compile | src/main/java/com/iammonk/htmlspanner/css/CSSCompiler.java:33-58 | a new rule with one chain per selector in selector order and the non-null updaters in declaration order |
| Compiler.ChainPerSelector | src/main/java/com/iammonk/htmlspanner/css/CSSCompiler.java:38-41 | chain `i` is the compiled selector `i` |
| Compiler.CompiledStyleIsDeclarations | src/main/java/com/iammonk/htmlspanner/css/CSSCompiler.java:45-53 | a compiled rule styles as its declarations applied in order would |
| SpanStacks.Reversed | src/main/java/com/iammonk/htmlspanner/SpanStack.java:81-85 | element `i` of the drain order is element `n - 1 - i` of the stack |
| SpanStacks.ReversedAppend | src/main/java/com/iammonk/htmlspanner/SpanStack.java:81-85 | what is pushed later is applied earlier |
| SpanStacks.DrainOrder | src/main/java/com/iammonk/htmlspanner/SpanStack.java:81-85 | after pushing A then B, B is applied before A, and both before what was pushed earlier |
| SpanStacks.LaterRuleWins | src/main/java/com/iammonk/htmlspanner/SpanStack.java:50-56 | across the cached rules, the last rule writing a field decides it |
| SpanStacks.SpanStack.constructor | src/main/java/com/iammonk/htmlspanner/SpanStack.java:28-32 | a new stack holds no action, no rule and no cached lookup |
| SpanStacks.SpanStack.RegisterCompiledRule | src/main/java/com/iammonk/htmlspanner/SpanStack.java:34-36 | the rule joins the set; registering it again changes nothing; stack and cache unchanged |
| SpanStacks.SpanStack.GetStyle | src/main/java/com/iammonk/htmlspanner/SpanStack.java:38-57 | the first lookup caches exactly the registered rules matching the node, each once; later lookups reuse the cache unchanged; the result is the base style folded through the cached rules, the base itself when none; rules and stack unchanged |
| SpanStacks.SpanStack.PushSpan | src/main/java/com/iammonk/htmlspanner/SpanStack.java:67-75 | one set-span action is pushed when `end > start`, nothing otherwise |
| SpanStacks.SpanStack.PushCallback | src/main/java/com/iammonk/htmlspanner/SpanStack.java:77-79 | the callback is always pushed |
| SpanStacks.SpanStack.ApplySpans | src/main/java/com/iammonk/htmlspanner/SpanStack.java:81-85 | every action is applied, in reverse push order, and the stack is left empty |
| AttributeHandlers.PairOf | src/main/java/com/iammonk/htmlspanner/handlers/attributes/StyleAttributeHandler.java:44-51 | a pair yields a declaration exactly when it splits on `:` into two parts; key and value then hold no capital and no blank at either end |
| AttributeHandlers.PairOfNormalized | src/main/java/com/iammonk/htmlspanner/handlers/attributes/StyleAttributeHandler.java:50-51 | a key and value already lower-case and trimmed come out as they are |
| AttributeHandlers.PairOfIgnoresCaseAndBlanks | src/main/java/com/iammonk/htmlspanner/handlers/attributes/StyleAttributeHandler.java:50-51 | halves that differ only in ASCII case and in blanks at their ends give the same declaration |
| AttributeHandlers.MalformedPairSpoils | src/main/java/com/iammonk/htmlspanner/handlers/attributes/StyleAttributeHandler.java:44-48 | one malformed pair makes the whole list malformed |
| AttributeHandlers.StyleFromAttribute | src/main/java/com/iammonk/htmlspanner/handlers/attributes/StyleAttributeHandler.java:38-61 | what `parseStyleFromAttribute` returns: the declarations of the `;`-separated pairs folded over the base style, or the base style when a pair is malformed |
| AttributeHandlers.ParseStyleFromAttribute | src/main/java/com/iammonk/htmlspanner/handlers/attributes/StyleAttributeHandler.java:38-61 | the loop gives the declarations folded over the base style, or the base style when a pair is malformed |
| AttributeHandlers.MalformedPairDiscards | src/main/java/com/iammonk/htmlspanner/handlers/attributes/StyleAttributeHandler.java:41-48 | a malformed pair anywhere discards the updates of the earlier pairs too |
| AttributeHandlers.TrailingSeparatorDiscards | src/main/java/com/iammonk/htmlspanner/handlers/attributes/StyleAttributeHandler.java:41-48 | an attribute ending in `"; "` is discarded whole, because the final `" "` has no `:` |
| AttributeHandlers.SkipsUnusable | src/main/java/com/iammonk/htmlspanner/handlers/attributes/StyleAttributeHandler.java:53-57 | a declaration with no updater has no effect on the others |
| AttributeHandlers.Delegate | src/main/java/com/iammonk/htmlspanner/handlers/attributes/WrappingStyleHandler.java:41-46 | the wrapped handler is called, with the given arguments, exactly when it is not null |
| AttributeHandlers.HandleStyleAttribute | src/main/java/com/iammonk/htmlspanner/handlers/attributes/StyleAttributeHandler.java:22-36 | the wrapped handler, when there is one, gets the same node and range; the style is restyled only with styling allowed and a `style` attribute present |
| AttributeHandlers.HandleBorderAttribute | src/main/java/com/iammonk/htmlspanner/handlers/attributes/BorderAttributeHandler.java:26-36 | a border span over `[start, end)` carrying `useStyle` is pushed when the node has a `border` attribute and the range is not empty; the wrapped handler, when there is one, gets the same node, range and style |
| AttributeHandlers.BorderAppliedAfterInner | src/main/java/com/iammonk/htmlspanner/handlers/attributes/BorderAttributeHandler.java:30-34 | whatever the wrapped handler pushes is applied before the border |

## Left out

- Android's `Color.parseColor`, `StyleValue.parse`, the Style enums and
  `HtmlSpanner.getFont` are not part of this model. They are parameters,
  and their grammar is not modelled.
- Exceptions other than `IllegalArgumentException` and
  `NumberFormatException` are not modelled. For example, a parser may
  throw `StringIndexOutOfBoundsException` on an empty token; a parser
  parameter simply answers `None` or a value.
- `toLowerCase`, `toUpperCase`, `equalsIgnoreCase` and `trim` are
  modelled on ASCII letters only. `Integer.parseInt` accepts ASCII digits
  only. Java's locale and Unicode case rules are not modelled.
- Declarations.TranslateFontSize: the sizes are exact tenths of an em,
  not the `float` literals 0.6f to 1.8f.
- Declarations.Apply: the Style setters are not shown. The model takes
  each setter to return a copy with that one field replaced, and
  `SetFontFamily` stores whatever `getFont` returns.
- Compiler.Compile: the `blank` style folded through the updaters while
  compiling is never used. Its only effect is calling `getFont`, so it is
  not modelled. The rule's printed form is taken as given.
- SpanStacks.SpanStack.GetStyle: the order of the cached rules is
  whatever the hash set yields. Registration order is not claimed.
- SpanStacks.SpanStack.ApplySpans: the `SpannableStringBuilder` is
  modelled only as the sequence of actions applied to it. The
  `SPAN_EXCLUSIVE_EXCLUSIVE` flags and what a callback does are not
  modelled.
- AttributeHandlers.HandleBorderAttribute: the `BorderSpan` is an opaque
  payload of style, range and colour flag. Its drawing code and em-to-pixel
  arithmetic are not modelled.
- The wrapped handler's `handleTagNode` is not part of this model.
  - The handlers return the call they make to it, or none when the
    wrapped handler is null.
  - What it pushes is a parameter of `BorderAppliedAfterInner`.
  - `WrappingHandler`, `WrappingStyleHandler`, `PreHandler` and
    `NewLineHandler` are buffer plumbing and delegation, and are not part
    of this model.
- Declarations.ExpandShorthand: the length test counts characters
  (Unicode scalar values), while Java's `length()` counts UTF-16 code
  units. The two differ only for text outside the Basic Multilingual
  Plane.
- `Log` calls are left out.
