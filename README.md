# DefaultPathFilter, modelled in Dafny

Logbook's `DefaultPathFilter` redacts URL paths. It is built from a
replacement text (such as `XXX`) and a path expression (such as
`/myApp/orders/{secret}/order`), and it works in two stages:

- **Compilation (the constructor).** The expression is split on `/`. Runs of
  ordinary parts, with their separating slashes, are merged into literal
  tokens. Every `{...}` part becomes a wildcard, which the class stores as a
  `null` array entry. The constructor also precomputes `substitute`: the
  tokens concatenated in order, with each wildcard written as the
  replacement.
- **Matching (`filter`).** One forward scan moves a cursor through the path.
  - A literal must occur at the cursor, otherwise the path comes back unchanged.
  - A wildcard moves the cursor to the next `/`. When there is none, the scan
    stops early.
  - A matched path comes back as `substitute`, followed by whatever the scan
    left unconsumed.

The project has five modules:

- `JavaStrings`: the three `java.lang.String` operations the model writes
  out as functions, in the form the class calls them (`startsWith`,
  `endsWith`, `length` and `substring` are used directly on sequences):
  - `split("/")`, with Java's rules: a leading empty part is kept and
    trailing empty parts are dropped;
  - `indexOf('/', from)`;
  - `regionMatches`.
- `PathPattern`: the specification of compilation.
  - `Compiled` is the state of the tokenising loop after `i` parts, built
    from the one-step function `Absorb`.
  - `Tokenize` and `Compile` give the final tokens, and `Substitute` gives
    the precomputed output.
  - `Render` is an independent reading of a token list: the text it stands
    for once each wildcard is filled in.
  - Proved: the compilation round trip, and the shape of compiled tokens.
    Literals and wildcards alternate, every literal is non-empty, and a
    slash borders every wildcard.
- `PathMatching`: the specification of `filter`.
  - `Scan` is the cursor walk and `Redact` is the value `filter` returns.
  - Proved: each early exit, and the exactness theorem. A path spelled by
    the tokens, with a slash-free segment in each wildcard position and
    possibly a suffix starting with `/`, filters to the substitute followed
    by that suffix.
- `PathFilter`: the class `DefaultPathFilter`.
  - Its two final fields are constant fields.
  - Its constructor runs the Java constructor's two loops, proved against
    `Compile` and `Substitute`.
  - `Filter` runs the do-while scan as a `while` loop, proved equal to `Redact`.
- `PathFilterCases`: concrete compilations and filterings. Among them are the
  documented `/orders/{secret}/order` pattern and the edge cases listed
  below.

The model follows the code where the class's intent might read otherwise:

- **Adjacent placeholders.** `/a/{x}/{y}/b` never yields two wildcards in a
  row. The `/` appended after every part but the last becomes a one-character
  literal between them.
- **Trailing placeholder.** `/orders/{secret}` applied to
  `/orders/42/order/extra` gives `/orders/XXX/order/extra`, not
  `/orders/XXX`. A wildcard stops at the next `/`.
- **Wildcard with no further `/`.** `/orders/{secret}/order` applied to
  `/orders/42` gives the whole substitute `/orders/XXX/order`. The tokens
  after that wildcard are never checked.
- **Empty expressions.** An expression that compiles to no token (`""`, `"/"`,
  `"//"`) makes `filter` fail on its first array access. This is modelled as
  `Failure(ArrayIndexOutOfBounds(0))`, not as returning the path.
- **`{}` is a placeholder.** The test only asks for a leading `{` and a
  trailing `}`.

## Model

| member | source | states |
|---|---|---|
| JavaStrings.Segments | logbook-core/src/main/java/org/zalando/logbook/DefaultPathFilter.java:34 | the raw split at every '/' has at least one part, no part holds a '/', and joining the parts with '/' gives the text back |
| JavaStrings.SegmentsOfJoin | logbook-core/src/main/java/org/zalando/logbook/DefaultPathFilter.java:34 | the raw split of slash-free parts joined by '/' gives exactly those parts |
| JavaStrings.DropTrailingEmpty | logbook-core/src/main/java/org/zalando/logbook/DefaultPathFilter.java:34 | the result is a prefix of the parts, it does not end with an empty part, and everything it drops is empty |
| JavaStrings.Split | logbook-core/src/main/java/org/zalando/logbook/DefaultPathFilter.java:34 | split("/") is a prefix of the raw split that drops only empty parts and ends with a non-empty part when the text has a '/'; a text without '/' gives the one-element array of itself, so "" gives [""] |
| JavaStrings.SplitOfJoin | logbook-core/src/main/java/org/zalando/logbook/DefaultPathFilter.java:34 | split undoes joining slash-free parts, whenever the last part is non-empty or there is only one part |
| JavaStrings.IndexOf | logbook-core/src/main/java/org/zalando/logbook/DefaultPathFilter.java:91 | indexOf(c, from) is -1 exactly when no position at or after from holds c, and otherwise the first such position |
| JavaStrings.IndexOfFinds | logbook-core/src/main/java/org/zalando/logbook/DefaultPathFilter.java:91 | any position holding c with no earlier c from `from` on is what indexOf returns |
| JavaStrings.RegionMatches | logbook-core/src/main/java/org/zalando/logbook/DefaultPathFilter.java:84 | regionMatches at an offset holds exactly when the offset is inside the string and the other text is a prefix of what follows it, so it is false when too few characters remain |
| PathPattern.Placeholders | logbook-core/src/main/java/org/zalando/logbook/DefaultPathFilter.java:42 | a text is among the placeholders of the parts exactly when it is one of the parts and starts with '{' and ends with '}' |
| PathPattern.IsPlaceholder | logbook-core/src/main/java/org/zalando/logbook/DefaultPathFilter.java:42 | the test `startsWith("{") && endsWith("}")`; a part that passes has at least two characters, so "{}" is the shortest placeholder |
| PathPattern.Flush | logbook-core/src/main/java/org/zalando/logbook/DefaultPathFilter.java:43-47 | the builder's text is added as a Literal only when non-empty: the tokens only grow, stay the same exactly when nothing is pending, and gain no wildcard |
| PathPattern.Absorb | logbook-core/src/main/java/org/zalando/logbook/DefaultPathFilter.java:41-51 | one iteration without the separator: the tokens only grow, and they gain one wildcard exactly when the part is a placeholder |
| PathPattern.Compiled | logbook-core/src/main/java/org/zalando/logbook/DefaultPathFilter.java:40-56 | definition: the token list and builder text after the first i iterations, the '/' of line 52-54 included |
| PathPattern.Tokenize | logbook-core/src/main/java/org/zalando/logbook/DefaultPathFilter.java:40-59 | definition: the token list after the loop and the final flush; its properties are TokenizeRoundTrip, TokenizeWellFormed and TokenizeEmpty |
| PathPattern.Compile | logbook-core/src/main/java/org/zalando/logbook/DefaultPathFilter.java:34-59 | definition: split the expression on '/' and tokenise the parts; what the constructor stores |
| PathPattern.Substitute | logbook-core/src/main/java/org/zalando/logbook/DefaultPathFilter.java:61-69 | the tokens concatenated in order with the replacement for each wildcard; without wildcards it is the tokens' text (SubstituteRendersReplacement gives the general case) |
| PathPattern.AbsorbRenders | logbook-core/src/main/java/org/zalando/logbook/DefaultPathFilter.java:41-51 | one loop step adds the part to the text the tokens and the builder stand for: a placeholder adds one wildcard filled with that part, after the flushed builder |
| PathPattern.FlushRenders | logbook-core/src/main/java/org/zalando/logbook/DefaultPathFilter.java:57-59 | turning the builder into a literal only when it is non-empty keeps the text it stands for |
| PathPattern.CompiledRendersParts | logbook-core/src/main/java/org/zalando/logbook/DefaultPathFilter.java:40-56 | loop invariant: after i parts, the tokens with the placeholders read so far put back, followed by the builder, are the first i parts joined by '/', plus the '/' the loop has already appended |
| PathPattern.TokenizeRoundTrip | logbook-core/src/main/java/org/zalando/logbook/DefaultPathFilter.java:34-59 | compilation round trip: putting each wildcard back as the placeholder part it came from and concatenating the tokens gives the split parts joined by '/' |
| PathPattern.SubstituteRendersReplacement | logbook-core/src/main/java/org/zalando/logbook/DefaultPathFilter.java:61-69 | the precomputed substitute is the tokens read with the replacement in every wildcard position |
| PathPattern.AbsorbShape | logbook-core/src/main/java/org/zalando/logbook/DefaultPathFilter.java:41-51 | one loop step keeps tokens alternating, literals non-empty and slash-bordered, and leaves a wildcard last whenever it emitted anything |
| PathPattern.CompiledShape | logbook-core/src/main/java/org/zalando/logbook/DefaultPathFilter.java:40-56 | loop invariant about shape: the tokens are well formed and end with a wildcard; pending text after a wildcard starts with '/'; between parts the pending text is non-empty and ends with '/' |
| PathPattern.TokenizeWellFormed | logbook-core/src/main/java/org/zalando/logbook/DefaultPathFilter.java:40-59 | compiled tokens strictly alternate between literal and wildcard, every literal is non-empty, a literal after a wildcard starts with '/' and one before a wildcard ends with '/' |
| PathPattern.TokenizeEmpty | logbook-core/src/main/java/org/zalando/logbook/DefaultPathFilter.java:34-59 | an expression compiles to no token exactly when it has no placeholder and its split parts join to the empty text |
| PathPattern.LiteralsOnly | logbook-core/src/main/java/org/zalando/logbook/DefaultPathFilter.java:40-59 | well-formed tokens without a wildcard are nothing or one literal holding all their text |
| PathPattern.LiteralPattern | logbook-core/src/main/java/org/zalando/logbook/DefaultPathFilter.java:40-59 | parts without a placeholder compile to one literal holding the parts joined by '/', or to nothing when that text is empty |
| PathMatching.Scan | logbook-core/src/main/java/org/zalando/logbook/DefaultPathFilter.java:79-101 | the cursor of a completed scan never moves back from where it started and never passes the end of the path |
| PathMatching.Redact | logbook-core/src/main/java/org/zalando/logbook/DefaultPathFilter.java:75-106 | filter's three answers (the path on a missing literal, the substitute, the substitute plus the unconsumed rest) and the failure at filter[0]; it fails exactly when there is no token |
| PathMatching.ScanAppend | logbook-core/src/main/java/org/zalando/logbook/DefaultPathFilter.java:81-101 | scanning two token lists in a row is scanning the first and, only if it consumed, going on with the second from its cursor |
| PathMatching.LiteralMissingKeepsPath | logbook-core/src/main/java/org/zalando/logbook/DefaultPathFilter.java:82-86 | a literal that does not occur at the cursor, too few remaining characters included, makes filter return the path unchanged whatever tokens follow |
| PathMatching.WildcardWithoutSlashGivesSubstitute | logbook-core/src/main/java/org/zalando/logbook/DefaultPathFilter.java:91-104 | a wildcard that finds no '/' at or after the cursor makes filter return exactly the substitute, whatever tokens follow |
| PathMatching.MatchStartsWithSubstitute | logbook-core/src/main/java/org/zalando/logbook/DefaultPathFilter.java:103-106 | when no literal is missing, the result starts with the substitute, and it is the substitute exactly when the scan swallowed the path or ended at its end |
| PathMatching.WildcardStep | logbook-core/src/main/java/org/zalando/logbook/DefaultPathFilter.java:91-98 | a wildcard before a slash-free segment moves the cursor to the '/' that follows it, and finds none when the segment ends the path |
| PathMatching.SlashOrEnd | logbook-core/src/main/java/org/zalando/logbook/DefaultPathFilter.java:91-93 | in a path the tokens spell, the cursor after a wildcard's segment sits on a '/' (the next literal's or the suffix's), or at the end when nothing follows |
| PathMatching.RenderedSpells | logbook-core/src/main/java/org/zalando/logbook/DefaultPathFilter.java:84-93 | a path that is the tokens' text followed by a suffix has each literal at the cursor and each filled segment after it |
| PathMatching.ScanSpelled | logbook-core/src/main/java/org/zalando/logbook/DefaultPathFilter.java:81-101 | scanning a path the tokens spell consumes all of it but the suffix, or swallows its end when there is no suffix |
| PathMatching.RedactRendered | logbook-core/src/main/java/org/zalando/logbook/DefaultPathFilter.java:75-106 | exactness: compiled tokens filled with slash-free segments, followed by nothing or by a suffix starting with '/', filter to the substitute followed by that suffix |
| PathMatching.LiteralFilterIsIdentity | logbook-core/src/main/java/org/zalando/logbook/DefaultPathFilter.java:82-106 | a single literal token returns every path as an equal string: unchanged on a mismatch, and the literal plus the rest on a match |
| PathFilter.DefaultPathFilter.constructor | logbook-core/src/main/java/org/zalando/logbook/DefaultPathFilter.java:31-72 | the stored tokens are the compilation of the expression and the stored substitute is their concatenation with the replacement in each wildcard position |
| PathFilter.DefaultPathFilter.Filter | logbook-core/src/main/java/org/zalando/logbook/DefaultPathFilter.java:75-107 | the do-while scan returns what Redact specifies for the stored fields: the path on a missing literal, the substitute, the substitute plus the unconsumed rest, or the failure of an empty token array; for a constructed object (Valid) that is Redact of Compile(pathExpression) and its substitute |
| PathFilter.PatternTextFiltersToSubstitute | logbook-core/src/main/java/org/zalando/logbook/DefaultPathFilter.java:31-107 | a filter built from an expression with at least one token maps the expression's own text (its split parts joined by '/') to the substitute |
| PathFilter.LiteralPatternKeepsEveryPath | logbook-core/src/main/java/org/zalando/logbook/DefaultPathFilter.java:34-106 | an expression without placeholders and with some text compiles to one literal, and filter then returns every path as an equal string |
| PathFilter.FilterFailsOnEmptyPattern | logbook-core/src/main/java/org/zalando/logbook/DefaultPathFilter.java:81-82 | filter fails on a path exactly when the expression has no placeholder and its split parts join to the empty text |
| PathFilterCases.SplitCases | logbook-core/src/main/java/org/zalando/logbook/DefaultPathFilter.java:34 | split("/") gives [""] for "", nothing for "/" and "//", ["", "a"] for "/a" and ["a"] for "a//" |
| PathFilterCases.OrdersPattern | logbook-core/src/main/java/org/zalando/logbook/DefaultPathFilter.java:34-59 | /orders/{secret}/order compiles to the literal "/orders/", a wildcard and the literal "/order" |
| PathFilterCases.OrdersSplit | logbook-core/src/main/java/org/zalando/logbook/DefaultPathFilter.java:34 | /orders/{secret}/order splits into "", "orders", "{secret}" and "order" |
| PathFilterCases.OrdersTokenize | logbook-core/src/main/java/org/zalando/logbook/DefaultPathFilter.java:40-59 | those four parts become "/orders/", a wildcard and "/order" |
| PathFilterCases.OrdersSubstitute | logbook-core/src/main/java/org/zalando/logbook/DefaultPathFilter.java:61-69 | with replacement XXX the substitute is /orders/XXX/order |
| PathFilterCases.OrdersFullMatch | logbook-core/src/main/java/org/zalando/logbook/DefaultPathFilter.java:75-106 | /orders/42/order filters to exactly /orders/XXX/order |
| PathFilterCases.OrdersSuffixCarried | logbook-core/src/main/java/org/zalando/logbook/DefaultPathFilter.java:91-106 | /orders/<segment>/order followed by nothing or by a suffix starting with '/' filters to /orders/XXX/order followed by that suffix |
| PathFilterCases.OrdersWellFormed | logbook-core/src/main/java/org/zalando/logbook/DefaultPathFilter.java:40-59 | the compiled /orders/{secret}/order tokens have the alternating, slash-bordered shape |
| PathFilterCases.OrdersNoMatch | logbook-core/src/main/java/org/zalando/logbook/DefaultPathFilter.java:84-85 | /customers/42 does not start with "/orders/" and comes back unchanged |
| PathFilterCases.OrdersShortPath | logbook-core/src/main/java/org/zalando/logbook/DefaultPathFilter.java:91-104 | /orders/42 gives the whole substitute /orders/XXX/order: the wildcard finds no '/' and the trailing "/order" is never checked |
| PathFilterCases.TrailingPattern | logbook-core/src/main/java/org/zalando/logbook/DefaultPathFilter.java:34-59 | /orders/{secret} compiles to the literal "/orders/" and a wildcard |
| PathFilterCases.TrailingSplit | logbook-core/src/main/java/org/zalando/logbook/DefaultPathFilter.java:34 | /orders/{secret} splits into "", "orders" and "{secret}" |
| PathFilterCases.TrailingTokenize | logbook-core/src/main/java/org/zalando/logbook/DefaultPathFilter.java:40-59 | those three parts become "/orders/" and a wildcard, with nothing left in the builder |
| PathFilterCases.TrailingPlaceholderStopsAtSlash | logbook-core/src/main/java/org/zalando/logbook/DefaultPathFilter.java:91-106 | /orders/{secret} on /orders/42/order/extra gives /orders/XXX/order/extra: a trailing wildcard stops at the next '/' |
| PathFilterCases.TrailingPlaceholderSwallowsEnd | logbook-core/src/main/java/org/zalando/logbook/DefaultPathFilter.java:91-104 | /orders/{secret} on /orders/42 gives /orders/XXX |
| PathFilterCases.AdjacentPattern | logbook-core/src/main/java/org/zalando/logbook/DefaultPathFilter.java:34-59 | /a/{x}/{y}/b compiles to "/a/", a wildcard, "/", a wildcard and "/b": two placeholders in a row are kept apart by a "/" literal |
| PathFilterCases.AdjacentSplit | logbook-core/src/main/java/org/zalando/logbook/DefaultPathFilter.java:34 | /a/{x}/{y}/b splits into "", "a", "{x}", "{y}" and "b" |
| PathFilterCases.AdjacentTokenize | logbook-core/src/main/java/org/zalando/logbook/DefaultPathFilter.java:40-59 | those five parts become "/a/", a wildcard, "/", a wildcard and "/b" |
| PathFilterCases.AdjacentPlaceholdersFilter | logbook-core/src/main/java/org/zalando/logbook/DefaultPathFilter.java:75-106 | /a/1/2/b filters to /a/XXX/XXX/b, each wildcard replaced on its own |
| PathFilterCases.EmptyPatterns | logbook-core/src/main/java/org/zalando/logbook/DefaultPathFilter.java:34-82 | "", "/" and "//" compile to no token, and filtering any path with the first of them fails at index 0 |

## Left out

- **Thread safety** (the class comment). The fields are final and nothing is
  shared mutably, so there is no concurrency to model.
- **Reference identity and allocation avoidance** (the comment at the top of
  `filter`). Results are compared by value. The model does not say when the
  same `String` object is returned.
- **The regular-expression engine behind `String.split`.** Only splitting on
  the single character `/` is modelled, with Java's rules for keeping a
  leading empty part and dropping trailing empty parts.
- **The `PathFilter` interface** and the code that calls this class. They
  are not part of this model.
- **Unicode.** Strings are sequences of characters. UTF-16 surrogate pairs
  and case rules play no part in the class.
- **Data representation.**
  - The `String[]` field is a sequence of tokens, with `Wildcard` in place of
    `null`.
  - The `StringBuilder` and `ArrayList` of the constructor are local
    sequences that the loops reassign.
  - Java's `int` indices are unbounded integers. Paths longer than
    2^31 - 1 characters cannot exist in Java, so no wrap-around is modelled.
- **Null arguments.** A null expression raises `NullPointerException` in the
  constructor. A null path raises it in `filter` when there is at least one
  token; with no token the array access fails first. A null replacement is
  written as the four characters "null" in the substitute. The model's
  strings cannot be null, so none of these cases is modelled.
