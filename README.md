# Query-template engine, modelled in Dafny

Users write SQL-like filter templates that contain typed placeholders:
`{Label}`, `{Label::Default}` or `{Label:Type:Default}`. This project
models the engine that turns such a template and a positional list of
values into an executable query string. It also proves what that engine
promises. The engine has the parts below; each Dafny module follows one of
the repository's source files.

- `QueryModel` (`query_model.dfy`) holds the data model: the four render component
  types, the value union `string | number | string[]`, parsed parameters,
  parse errors, parse results and registry descriptors.
- `QueryParser` (`query_parser.dfy`) is the parser.
  - It scans the template left to right for unescaped `{…}` placeholders.
  - It reads `Label:Type:Default` from each one.
  - It numbers the well-formed placeholders 0, 1, 2, …. A malformed one produces an error with its span and takes no number.
  - A depth-tracking pass reports unmatched braces.
  - `unescapeBraces` undoes `\{` and `\}`.
  - The regular expression `/(?<!\\)\{([^{}]*?)(?<!\\)\}/g` becomes a hand-written scanner (`MatchAt`, `FindOccurrence`) plus the declarative predicate `IsOccurrence`.
  - `parseQuery` and `checkUnmatchedBraces` are imperative methods. Each is proved equal to a specification function (`Parse`, `BraceErrors`), and the lemmas are about those functions.
- `QueryCompiler` (`query_compiler.dfy`) is the compiler.
  - It re-parses the template and picks each placeholder's value by position, falling back to defaults.
  - It validates and serialises each value: SQL quote doubling, bare numbers, comma-joined quoted tags.
  - It splices the results in from right to left, then unescapes braces once over the whole text.
  - `compileQuery` is a method whose splicing loop (`SpliceFromRight`) is proved against `Render`. `Render` is a left-to-right specification of the same text.
- `ComponentRegistry` (`component_registry.dfy`) models the component registry. It is a class whose map of descriptors `register` overwrites in place. It also holds the four built-in descriptors and the registry's fallbacks for unknown types.
- `SavedQueries` (`saved_queries.dfy`) is the saved-queries state machine: a GUID→query map, the current GUID and text, and the `isDirty` flag. A class invariant says that `isDirty` is exactly "the current text differs from its saved copy".
- `Text` (`text.dfy`) models the JavaScript built-ins the core relies on:
  - `trim`, `split`, `join` and quote doubling;
  - `String(n)`, `parseFloat` and `Number`, over integers.
- `Wrappers` (`wrappers.dfy`) holds `Option`.

## Behaviour worth knowing

- The invalid-type message lists the valid names in insertion order (`StringInput, NumberInput, FormTypes, Tags`), not sorted. The list comes from the parser's own set, not from the registry (`query-parser.service.ts:25-30, 123`).
- A placeholder's content excludes every brace, escaped or not (`[^{}]` in the pattern). For example, `{a\}b}` is neither a placeholder nor a placeholder error.
- `hasParameters` is true for malformed placeholders such as `{}` too, not only for well-formed ones.

## Model

| member | source | states |
|---|---|---|
| QueryModel.ComponentTypeNamed | src/app/core/models/query-parameter.model.ts:6-10 | a name denotes a component type exactly when it is one of the four names, and the type found carries that name |
| QueryParser.ValidTypeNamesInInsertionOrder | src/app/core/services/query-parser.service.ts:25-30 | the valid names are the four component types in declaration order, and joined with `, ` they give the list the error message prints |
| QueryParser.MatchAt | src/app/core/services/query-parser.service.ts:34 | a placeholder starting at `p` ends at `e` exactly when the matcher answers `e`: unescaped `{`, brace-free content, unescaped `}` |
| QueryParser.FindOccurrence | src/app/core/services/query-parser.service.ts:34 | the scanner returns a placeholder at or after `from`, and none starts earlier; it finds nothing only when there is none |
| QueryParser.HasParameters | src/app/core/services/query-parser.service.ts:206-209 | true exactly when some placeholder (well-formed or not) occurs in the query |
| QueryParser.SplitByColons | src/app/core/services/query-parser.service.ts:154-156 | at least one part, no part contains `:`, and joining the parts with `:` gives back the content |
| QueryParser.ParseParameterContent | src/app/core/services/query-parser.service.ts:83-149 | an error spans the whole placeholder; a parameter carries the given index, raw text and span and a non-empty label; white-space-only content is the `Empty parameter definition` error |
| QueryParser.LabelOnlyContent | src/app/core/services/query-parser.service.ts:102-136 | content without a colon is a StringInput parameter labelled with the trimmed content and an empty default |
| QueryParser.LabelTypeContent | src/app/core/services/query-parser.service.ts:116-130 | with two parts: a blank type gives StringInput, a known type is taken, an unknown type is the invalid-type error naming the trimmed type |
| QueryParser.FullContent | src/app/core/services/query-parser.service.ts:132-136 | with three or more parts the default is the rest, colons kept, trimmed; the type rules are unchanged |
| QueryParser.BlankLabelContent | src/app/core/services/query-parser.service.ts:104-114 | a blank label before a colon is the `Parameter must have a label` error over the whole placeholder |
| QueryParser.ScanStep | src/app/core/services/query-parser.service.ts:51-65 | one loop iteration, unfolded: each placeholder found adds its error, or adds its parameter and advances the number, and scanning resumes at its end |
| QueryParser.ScanAdvance | src/app/core/services/query-parser.service.ts:51-65 | one loop iteration keeps "collected so far + still to collect = all" for parameters and errors |
| QueryParser.ScanNumbering | src/app/core/services/query-parser.service.ts:46-64 | the parameters collected from `index` on are numbered `index`, `index + 1`, … in order |
| QueryParser.ScanSpans | src/app/core/services/query-parser.service.ts:51-65 | the scan collects exactly the placeholders at or after its start: every parameter and every placeholder error spans one, a parameter's raw text is the query's text over its span, and every placeholder is collected as a parameter or as an error |
| QueryParser.ScanSound | src/app/core/services/query-parser.service.ts:52-55 | every parameter and every placeholder error the scan collects spans a placeholder at or after its start, and a parameter's raw text is the query's text over its span |
| QueryParser.ScanComplete | src/app/core/services/query-parser.service.ts:51-65 | every placeholder at or after the scan's start is collected, as a parameter or as an error with its exact span |
| QueryParser.ScanContents | src/app/core/services/query-parser.service.ts:51-65 | each collected parameter is what reading its placeholder's content gave, under its own number, raw text and span |
| QueryParser.ScanInOrder | src/app/core/services/query-parser.service.ts:51-65 | parameters and errors each come in order of position without overlap |
| QueryParser.LastGroupOpen | src/app/core/services/query-parser.service.ts:174-177 | the recorded position is -1 or an unescaped `{` met at depth 0 |
| QueryParser.ClosingErrorsSound | src/app/core/services/query-parser.service.ts:179-188 | every closing-brace error is `Unmatched closing brace` over one character, an unescaped `}` met at depth 0 |
| QueryParser.ClosingErrorsComplete | src/app/core/services/query-parser.service.ts:179-188 | every unescaped `}` met at depth 0 has its error |
| QueryParser.ClosingErrorsInOrder | src/app/core/services/query-parser.service.ts:179-188 | closing-brace errors come left to right |
| QueryParser.OpenGroupWhileDeep | src/app/core/services/query-parser.service.ts:192-198 | while the depth is positive an opening brace has been recorded, and the depth stays positive from it on |
| QueryParser.BraceErrorsExact | src/app/core/services/query-parser.service.ts:161-201 | the balance errors are the closing-brace errors, plus, when the depth ends positive, one `Unmatched opening brace` from the brace that opened the last top-level group to the end |
| QueryParser.BraceFreeIsBalanced | src/app/core/services/query-parser.service.ts:161-201 | brace-free text has depth 0 and no closing-brace error |
| QueryParser.Parse | src/app/core/services/query-parser.service.ts:71-76 | the result keeps the query, and it is valid exactly when there is no error |
| QueryParser.ParseNumbering | src/app/core/services/query-parser.service.ts:57-64 | parameter `i` has index `i`; a malformed placeholder takes no number |
| QueryParser.ParseParameterSpans | src/app/core/services/query-parser.service.ts:52-55 | each parameter: `endIndex` is `startIndex` plus the length of `rawMatch`, the query's text over its span is `rawMatch`, which starts with `{`, ends with `}` and has no other brace |
| QueryParser.ParseParameterContents | src/app/core/services/query-parser.service.ts:52-62 | parameter `i` is what `parseParameterContent` makes of the text between its braces, with index `i`, its raw text and its span |
| QueryParser.ParseOccurrenceErrorSpans | src/app/core/services/query-parser.service.ts:91-128 | every placeholder error spans the whole placeholder it came from |
| QueryParser.ParseComplete | src/app/core/services/query-parser.service.ts:51-65 | every placeholder of the query comes out of parsing, as a parameter or as a placeholder error with its exact span |
| QueryParser.ParseInOrder | src/app/core/services/query-parser.service.ts:51 | parameters appear left to right: start positions strictly increase and each ends before the next starts; placeholder errors are in order too |
| QueryParser.ParseBraceFree | src/app/core/services/query-parser.service.ts:41-77 | brace-free text (the empty text included) parses valid, with no parameter and no error |
| QueryParser.HasParametersMeansMatches | src/app/core/services/query-parser.service.ts:206-209 | `hasParameters` is false exactly when the scan collects neither parameters nor placeholder errors |
| QueryParser.NestedBracesExample | src/app/core/services/query-parser.service.ts:34 | `{{a}}` gives one parameter, the inner `{a}` at [1, 4), and is valid |
| QueryParser.PlaceholderSpanExample | src/app/core/services/query-parser.service.ts:52-55 | `x = {Foo}` gives one parameter spanning [4, 9) |
| QueryParser.ParseQuery | src/app/core/services/query-parser.service.ts:41-77 | the match loop and the balance pass compute exactly `Parse(query)` |
| QueryParser.CheckUnmatchedBraces | src/app/core/services/query-parser.service.ts:161-201 | the depth-tracking loop returns exactly `BraceErrors(query)` |
| QueryParser.EscapeRoundTrip | src/app/core/services/query-parser.service.ts:215-217 | replacing backslash-`c` by `c` undoes escaping every `c` |
| QueryParser.ReplaceEscapedWithoutPairs | src/app/core/services/query-parser.service.ts:215-217 | a text with no backslash-`c` pair is unchanged |
| QueryParser.UnescapeEscapedBraces | src/app/core/services/query-parser.service.ts:215-217 | `unescapeBraces` restores any text whose braces were escaped |
| QueryParser.UnescapeWithoutEscapedBraces | src/app/core/services/query-parser.service.ts:215-217 | `unescapeBraces` is the identity on any text in which no backslash stands right before a brace (other backslashes allowed) |
| QueryParser.GetDisplayQuery | src/app/core/services/query-parser.service.ts:223-227 | the display query is the query itself |
| Text.TrimSpec | src/app/core/services/query-parser.service.ts:91 | a trimmed text has no white space at either end, and is empty exactly when the text is all white space |
| Text.TrimStartSpec | src/app/core/services/query-parser.service.ts:105 | trimming the start drops exactly the leading white space |
| Text.TrimEndSpec | src/app/core/services/query-parser.service.ts:105 | trimming the end drops exactly the trailing white space |
| Text.JoinSplit | src/app/core/services/query-parser.service.ts:155 | joining the parts of `split` with the separator gives back the text |
| Text.SplitJoin | src/app/core/services/query-compiler.service.ts:154 | splitting a join of separator-free parts gives back the parts |
| Text.QuoteRoundTrip | src/app/core/services/query-compiler.service.ts:132-133 | quoting with doubled quotes is undone by reading the literal back |
| Text.QuoteBetween | src/app/core/services/query-compiler.service.ts:132-133 | one quote between quote-free texts is the only one doubled |
| Text.RadixValueDecimal | src/app/core/services/component-registry.service.ts:24 | in base 10 the digits `Number` accepts are exactly the decimal digits, with their decimal value |
| Text.NonDecimalNumber | src/app/core/services/component-registry.service.ts:24 | `Number` reads an unsigned `0x`, `0o` or `0b` literal in its base, and a sign before one makes the text NaN |
| Text.NumberRoundTrip | src/app/core/services/query-compiler.service.ts:139-145 | the text `String(n)` gives reads back through `parseFloat` as `n` |
| QueryCompiler.CompileStringValue | src/app/core/services/query-compiler.service.ts:127-134 | the serialised text is an SQL literal that reads back as the value's text |
| QueryCompiler.QuoteEach | src/app/core/services/query-compiler.service.ts:160-161 | one literal per tag, each reading back as its tag |
| QueryCompiler.GetDefaultValues | src/app/core/services/query-compiler.service.ts:212-214 | one entry per parameter, in order, each that parameter's default |
| QueryCompiler.Messages | src/app/core/services/query-compiler.service.ts:47 | the messages of the parse errors, one each, in order |
| QueryCompiler.CompileOfParse | src/app/core/services/query-compiler.service.ts:41 | the parsed spans lie in order within the query, and compiling is compiling that parse |
| QueryCompiler.ReverseSortsDescending | src/app/core/services/query-compiler.service.ts:64 | reversing parameters in order of position gives them by descending start, a permutation of the same parameters |
| QueryCompiler.SpliceStep | src/app/core/services/query-compiler.service.ts:85-88 | splicing one piece over its original span, left of the already-spliced text, extends the rendered suffix by one parameter |
| QueryCompiler.SpliceIteration | src/app/core/services/query-compiler.service.ts:66-89 | one turn of the loop keeps its invariant: a rejected value adds its error and leaves the text, an accepted one has its span replaced by its compiled value |
| QueryCompiler.SpliceFromRight | src/app/core/services/query-compiler.service.ts:60-89 | the right-to-left splicing loop produces `Render`: the query with each accepted span replaced by its value, all else kept; and the errors in right-to-left order |
| QueryCompiler.CompileQuery | src/app/core/services/query-compiler.service.ts:40-99 | `compileQuery` computes exactly `Compile(query, values)` |
| QueryCompiler.CompileInvalidQuery | src/app/core/services/query-compiler.service.ts:43-49 | an invalid template is returned untouched, unsuccessful, with its parse error messages in order |
| QueryCompiler.CompileWithoutParameters | src/app/core/services/query-compiler.service.ts:52-58 | a valid template without parameters compiles to its unescaped text, successfully |
| QueryCompiler.CompileBraceFree | src/app/core/services/query-compiler.service.ts:52-58 | text without braces or backslashes compiles to itself, successfully |
| QueryCompiler.NoErrorsWhenAllAccepted | src/app/core/services/query-compiler.service.ts:74-79 | there is no validation error exactly when every parameter's effective value is accepted |
| QueryCompiler.CompileSuccess | src/app/core/services/query-compiler.service.ts:94-98 | compilation succeeds exactly when the template is valid and every parameter's value is accepted |
| QueryCompiler.RightToLeftIsReversed | src/app/core/services/query-compiler.service.ts:66-79 | the errors met right to left are the left-to-right errors reversed |
| QueryCompiler.CompileErrorsRightToLeft | src/app/core/services/query-compiler.service.ts:64-79 | a valid template's errors are its parameters' validation errors from the rightmost placeholder to the leftmost |
| QueryCompiler.RenderAllRejected | src/app/core/services/query-compiler.service.ts:76-78 | when every value is rejected, every span is left as it was |
| QueryCompiler.CompileSingleParameter | src/app/core/services/query-compiler.service.ts:81-92 | with one accepted parameter the result is the unescaped text with that span replaced by the compiled effective value |
| QueryCompiler.RenderSameEffective | src/app/core/services/query-compiler.service.ts:67-72 | values enter only through each parameter's effective value: equal effective values give equal text and errors |
| QueryCompiler.CompileWithDefaults | src/app/core/services/query-compiler.service.ts:212-214 | compiling with `getDefaultValues` supplied is compiling with no values at all |
| QueryCompiler.NumberCompileRoundTrip | src/app/core/services/query-compiler.service.ts:139-145 | a numeric value serialises to text that reads back as its number |
| QueryCompiler.AcceptedNumberCompiles | src/app/core/services/query-compiler.service.ts:189-196 | a NumberInput value that validates is a number and compiles to that number's text |
| QueryCompiler.NonNumericText | src/app/core/services/query-compiler.service.ts:189-196 | non-numeric text for a NumberInput compiles to `0` and fails validation with the `expects a numeric value, got:` message |
| QueryCompiler.TrimEach | src/app/core/services/query-compiler.service.ts:154 | `map(t => t.trim())`: one entry per piece, each the trimmed piece |
| QueryCompiler.NonEmptyAppend | src/app/core/services/query-compiler.service.ts:154 | `filter(t => t)` keeps order: it filters a concatenation part by part |
| QueryCompiler.NonEmptySingle | src/app/core/services/query-compiler.service.ts:154 | `filter(t => t)` keeps a single text exactly when it is not empty |
| QueryCompiler.NonEmptyDropsBlanks | src/app/core/services/query-compiler.service.ts:154 | `filter(t => t)` drops exactly the empty texts and keeps every other one as often as it occurs |
| QueryCompiler.TagsTextRoundTrip | src/app/core/services/query-compiler.service.ts:150-162 | trimmed, non-empty, comma-free tags joined with commas read back as the same tags, and compile as the array would |
| QueryCompiler.QuoteExample | src/app/core/services/query-compiler.service.ts:127-134 | `O'Brien` compiles to `'O''Brien'` |
| ComponentRegistry.DefaultConfig | src/app/core/services/component-registry.service.ts:7-67 | each built-in descriptor carries its own type's name |
| ComponentRegistry.DefaultsInOrder | src/app/core/services/component-registry.service.ts:87-91 | each built-in descriptor goes in under a name not yet taken, and the four give the default registry |
| ComponentRegistry.DefaultRegistryWellFormed | src/app/core/services/component-registry.service.ts:7-67 | the built-in names are distinct, the registry holds exactly them, each under its own name |
| ComponentRegistry.DefaultRegistryTypes | src/app/core/services/component-registry.service.ts:79-91 | the built-in registry holds exactly the four types, each with its built-in descriptor, and not `Unknown` |
| ComponentRegistry.NewRegistryBehaviour | src/app/core/services/component-registry.service.ts:117-152 | a new registry knows the four types and not `Unknown`; it compiles, defaults and validates each type as its descriptor does; an unknown type defaults to `''` and has no validator |
| ComponentRegistry.BuiltinQuoting | src/app/core/services/component-registry.service.ts:8-18 | StringInput and FormTypes quote the value's text with quotes doubled, reversibly; default `''`; no validator |
| ComponentRegistry.BuiltinNumber | src/app/core/services/component-registry.service.ts:20-27 | NumberInput compiles a number to text that reads back as it, non-numeric text to `0`; default 0 |
| ComponentRegistry.BuiltinNumberValidation | src/app/core/services/component-registry.service.ts:28-34 | the descriptor unfolded: NumberInput's validator answers `Value must be a number` exactly for non-numbers, and nothing otherwise |
| ComponentRegistry.BuiltinTags | src/app/core/services/component-registry.service.ts:48-66 | the descriptor unfolded: Tags compile to `''` without tags, else to the quoted tags joined with commas; default no tags; no validator |
| ComponentRegistry.NonDecimalArrayNumber | src/app/core/services/component-registry.service.ts:24-25 | an array holding one `0x`/`0o`/`0b` literal is a number: the NumberInput descriptor prints its decimal value, and `compileNumberValue` (query-compiler.service.ts:141-145), finding it not NaN, returns the literal as written |
| ComponentRegistry.HexArrayExample | src/app/core/services/component-registry.service.ts:24-25 | `['0x10']` gives `16` through the descriptor and `0x10` through the compiler |
| ComponentRegistry.CompilerAgreesWithBuiltins | src/app/core/services/component-registry.service.ts:7-67 | on every value the compiler accepts, its serialisation is the built-in descriptor's; its type defaults are theirs; the two NumberInput validators reject the same values |
| ComponentRegistry.ComponentRegistryService.constructor | src/app/core/services/component-registry.service.ts:79-82 | a new registry holds the four built-ins in declaration order, and is well formed |
| ComponentRegistry.ComponentRegistryService.Set | src/app/core/services/component-registry.service.ts:97 | `Map.set`: the key maps to the descriptor; a new key goes last in the key order, an existing one keeps its place |
| ComponentRegistry.ComponentRegistryService.RegisterDefaults | src/app/core/services/component-registry.service.ts:87-91 | the loop over the built-ins leaves exactly the default registry, keys in declaration order |
| ComponentRegistry.ComponentRegistryService.Register | src/app/core/services/component-registry.service.ts:96-98 | inserts or overwrites under the descriptor's type, every other entry unchanged, the registry kept well formed; afterwards `getConfig` of that type is the descriptor, and `compileValue`, `getDefaultValue` and `validate` use it, while every other type's descriptor is unchanged |
| ComponentRegistry.ComponentRegistryService.GetConfig | src/app/core/services/component-registry.service.ts:103-105 | exactly for registered types, the descriptor registered under the type, which carries that type |
| ComponentRegistry.ComponentRegistryService.GetAllTypes | src/app/core/services/component-registry.service.ts:110-112 | the registered types in insertion order, each exactly once |
| ComponentRegistry.ComponentRegistryService.CompileValue | src/app/core/services/component-registry.service.ts:124-133 | a registered type compiles with its descriptor's `compile`; an unknown type falls back to a single-quoted literal that reads back as the value's text |
| ComponentRegistry.ComponentRegistryService.GetDefaultValue | src/app/core/services/component-registry.service.ts:138-141 | a registered type's descriptor default, else `''` |
| ComponentRegistry.ComponentRegistryService.Validate | src/app/core/services/component-registry.service.ts:146-152 | a registered type with a validator answers with that validator; any other type gives no error |
| ComponentRegistry.OverrideExample | src/app/core/services/component-registry.service.spec.ts:138-149 | after registering a `Custom Input` descriptor for StringInput on a new registry, `getConfig` returns it and `compileValue('StringInput', 'x')` is `custom(x)`; the type list is unchanged |
| SavedQueries.SavedQueriesService.constructor | src/app/core/services/saved-queries.service.ts:14-20 | nothing saved, nothing current, not dirty |
| SavedQueries.SavedQueriesService.NewQuery | src/app/core/services/saved-queries.service.ts:47-51 | a fresh GUID with empty text becomes current and dirty; the saved map is unchanged |
| SavedQueries.SavedQueriesService.SetQueryText | src/app/core/services/saved-queries.service.ts:56-70 | the text becomes current; with a GUID it is dirty exactly when it differs from the saved copy, without one a fresh GUID is taken and it is dirty; the map is unchanged |
| SavedQueries.SavedQueriesService.SelectQuery | src/app/core/services/saved-queries.service.ts:75-82 | a saved GUID becomes current with its saved text, clean; any other GUID changes nothing |
| SavedQueries.SavedQueriesService.Save | src/app/core/services/saved-queries.service.ts:89-102 | the text is stored under the current GUID (or a fresh one), every other entry kept, and is clean |
| SavedQueries.SavedQueriesService.Duplicate | src/app/core/services/saved-queries.service.ts:107-120 | the text is stored under a fresh GUID that becomes current, the map grows by exactly that entry, and the text is clean |

## Left out

- QueryParser.Parse, QueryParser.ParseQuery, QueryParser.CheckUnmatchedBraces: offsets count Unicode code points, while JavaScript strings count UTF-16 code units, so `startIndex`, `endIndex` and `position` differ from the source's after any character outside the Basic Multilingual Plane.
- Floating point: numbers are integers. `parseFloat` reads an optional sign and leading decimal digits after white space. Fractions, exponents, `Infinity`, `-0` and JavaScript's float formatting in `String(num)` are not modelled.
- Text.ParseNumber: states `parseFloat` over integers only, so `"1.5"` reads as 1 here.
- QueryCompiler.CompileNumberValue: states the NumberInput serialisation over integers only, for the same reason; its array case reads the joined text with the same `Number` as ComponentRegistry.NumberCompile below.
- ComponentRegistry.NumberCompile: states `Number(value)` over integers only, for the same reason. `Number` here reads a signed decimal integer or an unsigned `0x`, `0o` or `0b` literal. A decimal text with a fraction or an exponent (`1.0`, `1e3`) and `Infinity` read as NaN here, even where JavaScript gives an integer.
- The regular expression's `lastIndex` state and lookbehind engine. They are replaced by an equivalent left-to-right scanner.
- Branches that the value union cannot reach:
  - the `null`/`undefined` guard in `compileStringValue`;
  - the `?? ''` in the registry's quoting.
  
  A missing value is `None` in the values array, which the compiler replaces by the default before serialising.
- The Tags "not an array and not a string" validation error is kept, because a number value reaches it.
- QueryCompiler.CompileQuery: the JavaScript `sort` is modelled as reversing the parse order. `ReverseSortsDescending` proves this gives the same descending-start permutation, because parse order has strictly increasing starts.
- ComponentRegistry.ComponentRegistryService.RegisterDefaults: requires an empty registry, because the source calls it only from the constructor. Registry keys are strings, so `isRegistered` accepts any text.
- ComponentRegistry.ComponentRegistryService.GetConfig: requires the class invariant `Valid()`, which the constructor and `Register` establish and keep.
- The compiler and the registry's NumberInput serialise arrays differently, and this model keeps that difference. The compiler returns the joined text. The registry returns the text of `Number` of it.
- The saved-queries I/O is not modelled: `load()`, `persist()` and the server calls behind them. If `load()` replaced the saved map mid-edit, the dirty flag could go stale.
- `crypto.randomUUID()` is an oracle: `NewQuery`, `SetQueryText`, `Save` and `Duplicate` take a `freshGuid` that is non-empty and not yet a key.
- Properties inherited through JavaScript objects' prototype, which `guid in queries` and `queries[guid]` can reach, are not modelled. The saved map holds only its own keys.
- Angular signals, dependency injection and every UI component lie outside the core, and so do the tags, form-types, XBRL and HTTP services.
