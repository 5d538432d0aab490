# sintax in Dafny

A model of the core of `sintax`, a small Go template engine. Templates are text with
`{{ ... }}` placeholders. A placeholder names a variable, or a variable followed by a
pipeline of filters (`{{ content | trim | shorten:5 | length }}`). The engine does four things:

- it tokenizes a template (parser.go);
- it renders the tokens against a variable scope, sending each variable through its
  filters (render.go);
- it resolves batches of variables whose values are themselves templates over one another
  (sintax.go, and the older manager.go);
- it ships a library of filters (functions.go and the `functions/...` packages) and a
  PHP-style date-format translator (date/).

Each module follows one Go file or package:

| module | file | models |
|---|---|---|
| `Wrappers` | — | `Option`, `Result`, `Collect` |
| `Strings` | — | the parts of Go's `strings`/`strconv` the engine uses, on byte strings |
| `Floats` | — | `fmt.Sprint` of a float64 read back by `strconv.Atoi`, and `int(f)` |
| `Values` | types.go | dynamic values (Go `any`), filters, registries, error kinds |
| `Token` | token.go | token kinds and `BaseToken` |
| `Parser` | parser.go | `Parse`, `detectTokenType`, `createToken`, `skipWhitespace` |
| `Pipeline` | render.go:153-303 | splitting a pipeline, argument literals, `getVarAndFunctions` |
| `Render` | render.go:36-151 | `Render` and `renderVariable` |
| `Topo` | sintax.go:132-168 | `topoSort` |
| `Sintax` | sintax.go | batch resolution, `mergeMaps`, `ResolveVariables` |
| `Manager` | manager.go | `NewManager` and the single-pass resolver |
| `Builtins` | functions.go | the builtin registry and its filters |
| `Functions` | functions/*.go | `key`, `first`, `lines`, `length`, `trim`, `wrap`, `default`, `join`, `concat`, `shorten`, `ConditionIsTrue`, modifier validation |
| `Collections` | functions/collections | `key`, `first`, `wrap`, `find`, `map` |
| `Text` | functions/text | `trim`/`trimPrefix`/`trimSuffix`, `split`, `title`, `slug` |
| `Utils`, `Boolean` | functions/utils, functions/boolean | `length`, `not` |
| `Date` | date/ | the code table and `(*Date).Format` of the date formatter |

Modelling choices:

- **Strings and `[]byte`.** Both are `string` with one char per byte. A `[]byte` is a
  separate `Value` variant (`Bytes`), so the Go type switches keep their branches. Case
  mapping and white space are ASCII only. `skipWhitespace` calls `unicode.IsSpace` on a
  single byte, so it also skips 0x85 and 0xA0. `strings.TrimSpace` decodes UTF-8, so it
  does not trim those bytes.
- **Go values.** `Value` has one variant per Go dynamic type the code tells apart:
  `string`, `[]byte`, `uint8`, `int`, `float64`, `bool`, `[]any`, `[]string`, `[][]byte`,
  `map[string]any`, `[]map[string]any`, `map[string]map[string]any`, nil, and anything else.
  - A float64 is kept as the literal that produced it.
  - `strconv.Atoi(fmt.Sprint(f))` is modelled by the digits `%v` prints. A whole number
    below 10^6 prints plainly; anything larger switches to exponent notation.
- **Panics.** A Go panic (an index out of range, a slice past its end) is an explicit
  outcome: `Panicked` for a filter, `Crash` for the engine.
- **Map iteration order.** Go's `range` over a map has no fixed order. It is a parameter:
  `ord: KeyOrder` gives the order for each key set. Every property holds for every
  `ord` that enumerates each set exactly once.
- **Helpers and foreign code as parameters.** The parameter helpers of
  `functions/utils.go` are not part of this model: `ParamString`, `ParamAny`,
  `ValueString` and `ParamStringList`. The builtins `format`, `json` and `yaml` call the
  date library and the JSON and YAML encoders. All of these are parameters.
- **Token `Var`.** `createToken` (parser.go:125-142) writes positional composite literals
  with only two of `BaseToken`'s four fields (token.go:23-28). Go requires a positional
  literal to list every field, so these literals do not compile as written, and the source
  does not say what `Var` holds. The renderer looks variables up by `Name()`, which is
  `Var`. The model fills `Var` the way those lookups need:
  - the trimmed contents, for a Variable token;
  - the text before the first unquoted `|`, for a FilteredVariable token.
- **Dependency order in `resolveVariables` (sintax.go:77-128).**
  - The Go file comments describe a dependency graph and define `topoSort`. The loop
    itself never calls `topoSort` and builds no graph: it resolves variables in map
    order.
  - The tests expect chains to resolve in any order (sintax_test.go:62-95, 105-122).
  - `Sintax.ResolveBatch` therefore builds the graph itself (`BuildGraph`: an edge from a
    key to every batch key its template names) and resolves in `topoSort` order.
  - The loop as written is `Sintax.ResolveBatchAsWritten`; see Findings.
- **The cycle error.** It is `errors.New("circular dependency detected")` (sintax.go:142),
  not the `ErrCircularDependency` sentinel that the tests compare against with
  `errors.Is`. The model keeps it as its own error kind, `CycleDetected`.
- **Duplicate filter code.** functions/text/concat.go and functions/text/shorten.go hold
  the same code as functions/concat.go and functions/shorten.go, so one member models
  each pair. The builtin `join` of functions.go is the same code as `functions.Join`.

## Model

| member | source | states |
|---|---|---|
| Wrappers.Collect | render.go:124-135 | All values in order when every element succeeds; otherwise the first error, with every earlier element a success |
| Token.CodeRoundTrip | token.go:5-14 | Token kinds have the fixed integers of `iota - 1` (If is 3); decoding inverts encoding in both directions |
| Parser.DetectTokenType | parser.go:97-115 | The kind is read off the trimmed contents: If exactly when they start with "if"; Variable only for a bare name without a pipe character; FilteredVariable only for a non-name containing a pipe character; ShorthandIf only with " ? " and " : "; never Text |
| Parser.DetectRules | parser.go:97-115 | Each kind is chosen exactly when its own test holds on the trimmed contents and no earlier test does, in the order if, /if, else, shorthand, plain name, pipe character, with Undefined for the rest |
| Parser.DetectKeywords | parser.go:100-105 | On trimmed contents the keyword tests are prefix tests in order: "/if" is IfEnd, "else" is Else, and "iffy" is If |
| Parser.DetectFiltered | parser.go:108-111 | On trimmed contents, two name characters around a pipe character are a filtered placeholder, not a plain name |
| Parser.DetectUndefined | parser.go:106-114 | On trimmed contents, a digit followed by a name character matches no rule and is Undefined |
| Parser.CreateToken | parser.go:117-142 | The token carries the requested kind; an undefined kind falls back to a Text token; no parameter variables |
| Parser.CreateTokenWellFormed | parser.go:125-142 | Every placeholder becomes a well-formed token of its kind: a Variable's raw text is a name and is also its lookup name; a filtered one's lookup name is the pipeline's base; it is Text exactly when no rule matched |
| Parser.SkipWhitespace | parser.go:79-85 | Returns the first position at or after i that is not a white-space byte; every byte skipped is white space |
| Parser.Parse | parser.go:22-68 | Every token of a successful parse is well-formed; a parse fails only by a crash, and only on text containing "}}" |
| Parser.ScanWellFormed | parser.go:31-59 | From any state of the scan loop, a scan that starts from well-formed tokens ends with well-formed tokens, or crashes on text with "}}" |
| Parser.PlainTextIsOneToken | parser.go:22-68 | Text without `{{` or `}}` parses to exactly one Text token holding the whole text |
| Parser.PlaceholderThenText | parser.go:36-66 | `{{name}}` followed by brace-free text parses to a Variable token for the name, then (if the text is non-empty) one Text token |
| Parser.StrayCloserCrashes | parser.go:48-50 | A "}}" with no opener slices the text with a negative start, which panics: "a}}b" fails |
| Parser.NameIsVariable | parser.go:91-115 | A name that is not a keyword is detected as a Variable and becomes a token that looks itself up |
| Parser.SpacedPlaceholder | parser.go:36-54 | `{{ w }}` with a space inside each delimiter skips the leading spaces and gives the one token created from `w` and the trailing space |
| Parser.FilteredPlaceholder | parser.go:36-54 | `{{ w }}` for a pipeline `w` gives one FilteredVariable token whose raw text is `w` and whose lookup name is the pipeline's base |
| Parser.UnclosedPlaceholderDropped | parser.go:36-65 | Text after a `{{` that is never closed is dropped without an error: `p{{rest}` parses to the tokens of `p` alone |
| Pipeline.SplitRespectingQuotes | render.go:259-303 | Empty text gives no pieces; otherwise there is at least one piece, and every piece is trimmed |
| Pipeline.SplitLossless | render.go:259-303 | Joining the raw pieces with the separator gives back the input: the split loses and invents nothing |
| Pipeline.SplitKeepsQuotedSpans | render.go:265-296 | Each raw piece ends outside quotes and holds its separator characters only inside quotes, so a quoted separator never splits |
| Pipeline.RawSplitNonEmpty | render.go:298-300 | A non-empty input never yields the single empty piece |
| Pipeline.SplitPieces | render.go:289-300 | The pieces are the untrimmed pieces, each trimmed, without the last one when it is empty |
| Pipeline.SplitJoinPlain | render.go:259-303 | Quote-free parts without the separator, joined by it, split back into the parts, trimmed |
| Pipeline.Unquote | render.go:247-253 | Fails exactly on the lone quote character; quoted text becomes its inside with every `\q` replaced by `q`, never longer than the text without its quotes; unquoted text is unchanged |
| Pipeline.EscapeUnescape | render.go:250 | Replacing every `\q` by `q` undoes escaping every `q` as `\q`, also when the text holds backslashes of its own |
| Pipeline.UnquoteRoundTrip | render.go:247-253 | Unquoting an escaped text between quotes gives the text back, for any text |
| Pipeline.IsBool | render.go:236-244 | true exactly for "true"/"yes", false exactly for "false"/"no", nothing for any other word |
| Pipeline.IsFloat | render.go:231-234 | Every non-empty run of decimal digits is a float literal, as for `strconv.ParseFloat` |
| Pipeline.ClassifyArg | render.go:188-218 | In the source's order: a double- or single-quoted argument is the string literal of its unquoted text (a lone quote fails); then an Atoi integer, a float literal, a boolean word; anything else is a reference to the variable of that name; failing exactly on a lone quote |
| Pipeline.ClassifyQuoted | render.go:193-200 | Any text escaped and put between either quote character is classified as exactly that string |
| Pipeline.ClassifyInt | render.go:202-205 | The decimal text of any Go int is classified as that integer |
| Pipeline.ClassifyBool | render.go:212-215 | "true" and "yes" are the literal true, "false" and "no" the literal false |
| Pipeline.ClassifyArgs | render.go:186-218 | Succeeds exactly when every argument classifies, and then keeps each argument's classification in order |
| Pipeline.SplitCall | render.go:169-182 | Without ':' the whole segment is the name; with one, the segment is the part before the first ':', ':' and the argument text, and the name is that part trimmed |
| Pipeline.ParseCall | render.go:168-221 | A call parses exactly when every comma piece of its argument text classifies; it has the trimmed name before ':' and those classified arguments in order |
| Pipeline.CallWithInt | render.go:169-205 | `name:n` parses to the call of `name` with the one integer argument n |
| Pipeline.ParseCalls | render.go:167-221 | Succeeds exactly when every segment parses, with one call per segment |
| Pipeline.BaseName | render.go:164-165 | The variable of a pipeline is the text before its first bar (the pipe character) outside quotes (all of it when there is none), trimmed |
| Pipeline.GetVarAndFunctions | render.go:162-224 | Empty text fails; otherwise it succeeds exactly when every bar-separated segment after the first parses, and then gives the base name and the parsed calls, one per segment, in order |
| Pipeline.SplitWords | render.go:164-168 | Plain words joined by a bar with a space on each side split back into exactly those words |
| Pipeline.GetVarCalls | render.go:162-224 | A chain of plain words names its first word as the variable and has the calls its other words parse to |
| Pipeline.ChainOfThree | render.go:162-224 | The pipeline of variable v with filters a, b:n and c, joined by bars, has variable v and the calls a(), b(n) and c(), in that order |
| Pipeline.HasDefaultFunction | render.go:153-160 | True exactly when some filter of the pipeline is named "default" |
| Render.ResolveArgs | render.go:124-135 | Succeeds exactly when every variable argument is in scope; each argument becomes its literal or its variable's value; otherwise the error names a missing variable |
| Render.ErrorPolicy | render.go:117-148 | An unknown filter fails with FunctionNotFound; a panic becomes a crash; a filter error is swallowed exactly when the pipeline has `default` and the error allows it, and otherwise fails the render |
| Render.ApplyFuncsAppend | render.go:118-148 | Running a pipeline `fs + gs` runs `fs`, then runs `gs` on its result, and stops at the first error |
| Render.RenderVariable | render.go:68-151 | A Text token renders as its raw text; a kind other than Text/Variable/Filtered is an invalid-token error with its code; a Variable fails exactly when its name is not in scope, naming it; a filtered variable is its pipeline's failure or the run of its pipeline |
| Render.LookUp | render.go:77-81 | Fails exactly when the name is not in scope, and names it |
| Render.VariableTextReadsBack | render.go:83-96 | A string, bool or int variable renders as text: an int's text reads back as the int, a bool's text is "true" exactly when it is true; any other value is returned as is |
| Render.RunPipeline | render.go:100-150 | Without filters, a missing variable fails with VariableNotFound and a present one is returned as is; with filters, the chain runs on the value, or on nil when the variable is missing |
| Render.RenderFiltered | render.go:99-150 | A filtered token renders as the run of its parsed pipeline and reads exactly the base and the argument variables |
| Render.TurnFor | render.go:40-61 | Only a variable token can end the loop, and an error it ends it with is a crash or a wrapped error |
| Render.RunTurns | render.go:39-64 | An error of the loop is the outcome of some turn that finishes |
| Render.Render | render.go:36-65 | Every render error is a crash or is wrapped with the failing token's name |
| Render.RenderConcatenates | render.go:39-64 | When no token ends the loop, the result is the concatenation of the pieces: Text raw, strings as they are, booleans as "true"/"false", and nothing for If, Else and IfEnd |
| Render.RenderStopsAt | render.go:44-55 | The first token that does not write decides the result: its error wrapped with its name, or its value, which is then neither a string nor a boolean; the text before it is dropped |
| Render.RenderOne | render.go:36-65 | A one-token list renders to the text its token writes, or to the outcome it ends the loop with |
| Render.RenderSingle | render.go:43-54 | A template of one variable placeholder renders to the string that variable renders to |
| Render.SilentTokenVanishes | render.go:56-61 | Inserting an If, Else, IfEnd, shorthand or undefined token anywhere leaves the rendering unchanged |
| Render.RenderText | render.go:39-42 | Tokens that are all Text render as the concatenation of their texts |
| Render.PlainTemplateRendersItself | parser.go:22-25 | A template without delimiters parses, and renders as itself against any scope |
| Render.RenderVariableFrame | render.go:68-151 | A token's result depends only on the variables it names: two scopes that agree on them render it alike |
| Render.RenderFrame | render.go:36-65 | Two scopes that agree on every variable a template names render it alike |
| Topo.TopoSort | sintax.go:132-168 | Only a cycle error is possible; a success is a topological order: every node exactly once, each after everything it depends on |
| Topo.TopoSortCorrect | sintax.go:132-168 | The sort succeeds exactly when the graph has no cycle, and then gives a topological order |
| Topo.TopoOrderHasNoCycle | sintax.go:138-158 | A graph with a topological order has no cycle |
| Sintax.BuildGraph | sintax.go:146-152 | One node per batch key, with an edge to another key exactly when the first key's template names it as a variable or a pipeline base |
| Sintax.ResolveValueShape | sintax.go:92-115 | A value that is neither a string nor a map is kept; a map resolves to a map; an error is a crash or wrapped with the variable (a template) or the map (a map) |
| Sintax.ResolveBatchKeys | sintax.go:78-85 | A resolved batch holds exactly the system and batch keys, and system variables the batch does not redefine keep their values |
| Sintax.ResolveBatchFixpoint | sintax.go:118-125 | Every batch template whose references are all graph edges re-renders, against the final scope, to its own stored value: the batch is fully resolved |
| Sintax.ResolveBatchCycle | sintax.go:132-168 | A batch fails with the cycle error exactly when its dependency graph has a cycle |
| Sintax.ResolveBatchKeepsValues | sintax.go:92-115 | A non-string, non-map batch value is stored unchanged; a map value is resolved as its own batch over the system variables |
| Sintax.ResolveValueFrame | sintax.go:92-105 | A value resolves alike in two scopes that agree on what its template reads |
| Sintax.ResolveInOrderErrors | sintax.go:119-123 | A failure inside the loop is a crash or an error wrapped with the variable being resolved |
| Sintax.MergeMapsSpec | sintax.go:170-178 | The merge holds exactly the keys of the maps, each with its value from the last map that holds it |
| Sintax.ResolveVariables | sintax.go:53-64 | A failed config batch fails the call; an error is a crash or wrapped as a config or an action error, and a config error means the config batch failed |
| Sintax.ResolveVariablesPrecedence | sintax.go:53-75 | The result holds system, config, output and action keys; an action key outranks an output one, which outranks a config one, which outranks a system one |
| Sintax.ResolveBatchAsWritten | sintax.go:77-128 | The map-order loop as written: a success holds exactly the system and batch keys |
| Sintax.ChainOrderCounterexample | sintax.go:119-125 | With iteration order b, a over `{a: "{{r}}", b: "{{a}}"}` and `r = "x"`, the loop as written leaves b as "{{r}}", a value that is not resolved |
| Sintax.ChainResolved | sintax_test.go:62-80 | The same chained batch resolves both a and b to "x" for every iteration order |
| Sintax.ResolveReference | sintax_test.go:123-140 | A template that is exactly `{{n}}` resolves to the text of n when n is a string, bool or int ("123", "true", "false"), to n's value itself otherwise, and to VariableNotFound wrapped with n and the variable when n is missing |
| Sintax.ResolveEmptyTemplate | sintax_test.go:169-180 | An empty template resolves to the empty string |
| Manager.NewManager | manager.go:21-33 | The registry binds the builtin names and the caller's names; a caller's filter wins over a builtin of the same name |
| Manager.NewManagerKeepsBuiltins | manager.go:21-33 | A caller with disjoint names keeps every builtin; one that supplies `trim` replaces it |
| Manager.ResolvePassKeys | manager.go:85-90 | A successful pass holds exactly the system and batch keys, and untouched system values keep their values |
| Manager.ResolvePassSees | manager.go:91-123 | Each variable is resolved against the system variables plus exactly the batch variables that come before it in iteration order |
| Manager.ResolvePassValues | manager.go:114-121 | Non-template values are copied; a map value becomes the result of its own pass over the system variables |
| Manager.ForwardReferenceFails | manager.go:94-107 | A first-visited template naming a batch variable that no system variable provides fails with variable-not-found, wrapped with both names |
| Manager.ResolvePassBlames | manager.go:94-118 | A failed pass is a crash or an error wrapped with a batch key |
| Manager.ResolveVariablesPrecedence | manager.go:55-83 | The result holds system, config, output and action keys, with action over output over config over system for values the pass copies |
| Manager.CopiedValues | manager.go:120-121 | Every batch value that is neither a string nor a map comes through a pass unchanged |
| Manager.ResolveVariablesBlames | manager.go:57-71 | A failure is a crash, or a config error naming a config key, or an action error naming an action key |
| Builtins.BuiltinFunctions | functions.go:17-28 | The builtin registry binds exactly the ten builtin names |
| Builtins.BuiltinBindings | functions.go:17-28 | Each builtin name is bound to the filter of that name |
| Builtins.ToSexy | functions.go:60-68 | Whatever the value and the arguments, the result is the fixed bear text |
| Builtins.ToDefault | functions.go:78-87 | Panics exactly when the value is nil or "" and there is no argument; otherwise agrees with `functions.Default` |
| Builtins.ToLines | functions.go:115-128 | nil gives nil; a string or `[]byte` gives its newline-separated pieces as a `[]string`: they join back to the input, there is one more piece than newlines, and no piece holds a newline; anything else is an error |
| Builtins.Trim | functions.go:130-138 | Never fails; a string loses exactly its leading and trailing white space; other values, `[]byte` included, are unchanged |
| Builtins.TrimSettles | functions.go:130-138 | Trimming twice is trimming once; the builtin agrees with `functions.Trim` except on `[]byte` |
| Builtins.Shorten | functions.go:140-159 | Agrees with `functions.Shorten` except for the error text on a wrong argument count |
| Builtins.Length | functions.go:161-168 | A string gives its byte length, in decimal that reads back; anything else is an error with value "" |
| Builtins.TrimShortenLength | render_test.go:69-76 | For any text and any n ≥ 0, the pipeline trim, shorten:n, length gives the decimal length of the trimmed text cut to n |
| Builtins.HelloWorldIsFive | render_test.go:72-75 | `" Hello, World! "` through the pipeline trim, shorten:5, length gives "5" |
| Builtins.ChainRenders | render_test.go:69-76 | For any variable name, text and n, the template of variable v piped through trim, shorten:n and length parses and renders to the decimal length of the trimmed text cut to n |
| Builtins.HelloWorldRendersFive | render_test.go:72-75 | Parsing and rendering the template of x piped through trim, shorten:5 and length with x = " Hello, World! " gives "5" |
| Functions.Key | functions/key.go:8-61 | Fails unless the value is a map and the first argument a string; a failure returns nil |
| Functions.LookupPath | functions/key.go:30-57 | A missing first segment fails, returning nil |
| Functions.KeyDirect | functions/key.go:28-46 | A dot-free key succeeds exactly when present and then returns its value |
| Functions.KeyDescends | functions/key.go:48-56 | For `a.rest`, a missing or non-map `a` fails; otherwise it is the lookup of `rest` inside `a` |
| Functions.First | functions/first.go:5-22 | Succeeds exactly on a non-empty string, `[]byte` or `[]any`; a failure returns nil |
| Functions.FirstOfShortened | functions/first.go:7-10 | The first of an ASCII-led string is its first byte, and shortening to any n ≥ 1 does not change it |
| Functions.Lines | functions/lines.go:9-22 | nil gives nil; a string or `[]byte` gives pieces of the same type that join back to it; anything else fails |
| Functions.LinesCount | functions/lines.go:15-16 | A text gives one more line than it has newlines, and no line contains a newline |
| Functions.Length | functions/length.go:7-16 | Succeeds exactly on a string or `[]byte`, with its length in decimal that reads back |
| Functions.Trim | functions/trim.go:5-13 | Never fails; strings and `[]byte` lose exactly their leading and trailing white space; other values are unchanged |
| Functions.TrimIdempotent | functions/trim.go:5-13 | Trimming twice is trimming once |
| Strings.TrimSpaceIsSpaceTrimmed | functions/trim.go:7-10 | `strings.TrimSpace` gives the one text that cuts only white space off both ends and has none left at either end |
| Strings.StrippedUnique | functions/trim.go:7-10 | At most one text cuts only bytes of a class off both ends and has none of them left at either end |
| Functions.Wrap | functions/wrap.go:5-14 | Never fails; strings and `[]byte` lose exactly their leading and trailing white space; other values are unchanged |
| Functions.WrapIsTrim | functions/wrap.go:5-14 | `wrap` is `trim` under another name, whatever the arguments, and is idempotent |
| Functions.Default | functions/default.go:5-17 | Fails exactly without an argument; nil or "" becomes the argument; any other value is kept |
| Functions.DefaultIdempotent | functions/default.go:9-16 | Applying `default` with the same argument twice is applying it once |
| Functions.Join | functions/join.go:8-15 | Succeeds exactly on a `[]string`, giving the strings joined by newlines: no strings give "", one string gives itself, and newline-free strings split back out of the result; failure returns nil |
| Functions.JoinLines | functions/join.go:8-15 | `join` undoes `lines`: any text split into lines and joined back is itself |
| Functions.Concat | functions/concat.go:8-25 | Succeeds exactly on a string with string arguments, giving the string followed by the arguments in order |
| Functions.ConcatAssociative | functions/text/concat.go:8-26 | No arguments is the identity, and concatenating p then q is concatenating p + q |
| Functions.LengthArg | functions/shorten.go:18-21 | A string argument is parsed by Atoi, an int or byte is its value, and other non-float values are rejected |
| Functions.Shorten | functions/shorten.go:8-28 | A non-string, a wrong argument count or a non-numeric argument fails with ""; a negative length panics; otherwise the result is the first n bytes, or all bytes if fewer |
| Functions.ShortenTwice | functions/text/shorten.go:8-28 | Shortening to m then n is shortening to min(m, n) |
| Functions.RenderedConditions | functions/utils.go:11-53 | A bool and its printed text agree as conditions; a true int's text is true; a string is false exactly when empty or "false" |
| Functions.IsParam | functions/utils.go:3-9 | False when there are not enough arguments; otherwise true exactly when the argument at the index is the string `name` (a `[]byte` with the same bytes is not) |
| Functions.DetectType | functions/definition.go:91-110 | string, `[]byte`, int (also int32 and int64), float (also float32), bool, `[]any` and `map[string]any` get their own type; every other value is TypeAny |
| Functions.IsTypeAllowed | functions/definition.go:81-89 | True exactly when some accepted type is TypeAny or the value's detected type |
| Functions.Validate | functions/definition.go:56-79 | Passes exactly when some accepted type admits the value; a failure reports an invalid value type with the detected type |
| Functions.ValidateAdmits | functions/definition.go:56-89 | The detected type and TypeAny always admit; an empty list never does; the parameters play no part |
| Collections.Key | functions/collections/key.go:10-17 | Never fails: a lookup's value, or nil when the lookup fails |
| Collections.LookUp | functions/collections/key.go:19-44 | Fails without a key, on nil, and on values that are neither maps nor slices |
| Collections.KeyParts | functions/collections/key.go:156-164 | Succeeds exactly on a string key, whose dot-separated parts join back to it |
| Collections.HandleMap | functions/collections/key.go:46-76 | A non-string key fails |
| Collections.Descend | functions/collections/key.go:52-73 | Descending into anything that is not a map fails |
| Collections.DescendAgrees | functions/collections/key.go:52-73 | Where `functions.Key`'s path lookup succeeds, the corrected descent gives the same value |
| Collections.HandleSlice | functions/collections/key.go:78-94 | Succeeds exactly with an integer index within bounds, returning that element |
| Collections.ConvertToInt | functions/collections/key.go:123-154 | Ints, bytes, floats and numeric strings convert; a string converts to the value Atoi reads |
| Collections.IndexAsText | functions/collections/key.go:123-154 | Indexing by the decimal text of i is indexing by i |
| Collections.DescendAsWritten | functions/collections/key.go:52-73 | A value reached through `map[string]any` has interface kind, so the as-written descent fails on it |
| Collections.AsWrittenNestedFails | functions/collections/key.go:54-56 | As written, every path of two or more parts fails; a one-part path agrees with the corrected descent |
| Collections.NestedLookupCounterexample | functions/collections/key.go:54-72 | On `{a: {b: 1}}` with path `a.b`, the as-written descent fails while the corrected one, and the corrected `key`, give 1 |
| Collections.First | functions/collections/first.go:21-40 | Succeeds exactly on a non-empty string or slice; a string gives its first byte re-encoded as a rune |
| Collections.FirstExtendsFunctions | functions/collections/first.go:26-39 | Wherever `functions.First` succeeds this `first` agrees; it also takes the first of a `[]string` |
| Collections.FirstIsIndexZero | functions/collections/first.go:33-36 | On a non-empty slice, `first` is `key` at index 0 |
| Collections.Wrap | functions/collections/wrap.go:7-18 | Fails exactly without an argument; otherwise a one-entry map from the key (or "" for a non-string) to the value |
| Collections.KeyUnwraps | functions/collections/wrap.go:7-18 | `key` on a dot-free key undoes `wrap` with that key |
| Collections.FirstMatch | functions/collections/find.go:26-33 | The index of the first map whose field matches, or none exactly when no map matches |
| Collections.Find | functions/collections/find.go:9-44 | On a map list, the first map whose field equals the wanted value; on a map, itself when it matches; it succeeds whenever such a map exists |
| Collections.GroupBySpec | functions/collections/map.go:21-31 | Fails exactly when some map has a non-string value under the key; a group exists exactly for each string some map carries, holding the last map that carries it |
| Collections.MapByKey | functions/collections/map.go:9-35 | Fails without a key or on a non-map-list; a success is the grouping by the key |
| Collections.MapAndFindAgree | functions/collections/map.go:9-35 | When exactly one map carries s under the key, `find` returns it and `map` groups it under s |
| Utils.Length | functions/utils/length.go:7-18 | Succeeds exactly on strings, `[]byte` and `[]any`, with their length in decimal that reads back |
| Utils.LengthExtends | functions/utils/length.go:7-18 | Agrees with `functions.Length` on strings and `[]byte`, and also accepts `[]any`, which that one rejects |
| Boolean.Not | functions/boolean/not.go:9-11 | Always a bool, true exactly when the value is not a true condition |
| Boolean.NotNot | functions/boolean/not.go:9-11 | Negating twice gives the value's truth, and a bool back unchanged |
| Boolean.NotCases | functions/boolean/not.go:9-11 | nil, "", "false", non-positive ints and maps negate to true; a non-empty word negates to false |
| Text.TrimText | functions/text/trim.go:10-33 | Fails exactly on a non-string cut set; otherwise removes exactly the leading and trailing white space, or exactly the leading and trailing cut-set bytes |
| Text.Trim | functions/text/trim.go:10-33 | Fails exactly on a non-text value or a non-string cut set, returning nil; otherwise a string or `[]byte` of the same kind holding the trimmed text |
| Text.TrimIdempotent | functions/text/trim.go:10-33 | Trimming twice with the same arguments is trimming once |
| Text.TrimBytesAsString | functions/text/trim.go:21-29 | A `[]byte` is trimmed as its string and comes back as `[]byte` |
| Text.TrimPrefixText | functions/text/trim.go:35-64 | Without an argument, removes exactly the leading blanks; with one, removes that prefix once if present |
| Text.TrimSuffixText | functions/text/trim.go:66-95 | Without an argument, removes exactly the trailing blanks; with one, removes that suffix once if present |
| Text.TrimPrefixFilter | functions/text/trim.go:35-64 | Fails exactly on a non-text value or a non-string argument, returning nil; otherwise the text, of the same kind, without its prefix |
| Text.TrimSuffixFilter | functions/text/trim.go:66-95 | Fails exactly on a non-text value or a non-string argument, returning nil; otherwise the text, of the same kind, without its suffix |
| Text.TrimPrefixBlanksIdempotent | functions/text/trim.go:37-42 | Removing leading blanks twice is removing them once |
| Text.TrimSuffixBlanksIdempotent | functions/text/trim.go:68-73 | Removing trailing blanks twice is removing them once |
| Text.TrimPrefixOnce | functions/text/trim.go:44-49 | A given prefix is removed once, not repeatedly: "aab" loses one "a" |
| Text.GetParamString | functions/text/split.go:21-34 | Succeeds exactly when the argument exists and is a string, and returns it |
| Text.Split | functions/text/split.go:8-19 | Succeeds exactly on a string with a string separator; a non-empty separator gives pieces that join back, one more than its occurrences |
| Text.SplitUndoesJoin | functions/text/split.go:8-19 | Splitting separator-free pieces joined by a one-byte separator gives the pieces back |
| Text.TitleWord | functions/text/title.go:58-74 | Same length and letters up to case; an acronym is upper-cased throughout; any other word gets a capital first letter and keeps the rest |
| Text.Title | functions/text/title.go:12-34 | Succeeds exactly when the value and the acronym list read as text, and then gives the title of the slug |
| Text.TitleWordsSpec | functions/text/title.go:55-77 | A title has no hyphens, and its space-separated words are the title-cased hyphen-separated words of the slug |
| Text.TitleOfPlain | functions/text/title.go:55-77 | The title of plain lower-case words, lower-cased, is the words joined by spaces |
| Text.Blank | functions/text/slug.go:23-25 | Same length; slug characters stay and every other byte becomes a space |
| Text.CollapseRuns | functions/text/slug.go:27-29 | Empty exactly when the input is; a run in the class starts with the replacement |
| Text.CollapseNoPairs | functions/text/slug.go:28-29 | After collapsing, no two adjacent characters are both in the class |
| Text.MatchDots | functions/text/slug.go:34-42 | A match is a left-class byte, one or more dots, then a right-class byte |
| Text.ReplaceDots | functions/text/slug.go:34-42 | Every output byte is a space or a byte of the input |
| Text.RewriteDots | functions/text/slug.go:34-42 | Every output byte is a space or a byte of the input |
| Text.SpacedWords | functions/text/slug.go:20-32 | The lower-cased, trimmed text has only slug bytes and single spaces |
| Text.Hyphenate | functions/text/slug.go:44-49 | Only slug bytes remain, and no two hyphens are adjacent |
| Text.TitleToSlug | functions/text/slug.go:19-52 | A slug has only slug bytes, no white space, no capitals and no double hyphen |
| Text.Slug | functions/text/slug.go:10-17 | Succeeds exactly when the value reads as text, and then gives its slug |
| Text.SlugOfTitle | functions/text/slug.go:19-52 | Slug inverts title: the slug of the title of plain hyphen-joined words is the original |
| Text.DigitDotsSurvive | functions/text/slug.go:34-42 | Dots between digits (as in "4.5") are kept |
| Text.LetterDotsSplit | functions/text/slug.go:35-36 | Dots between letters become spaces: "a.b" becomes "a b" |
| Text.SlugHelloWorld | functions/text/slug_test.go:18-19 | "Hello World" becomes "hello-world" |
| Text.SlugGptPreview | functions/text/slug_test.go:23-24 | "GPT-4.5 Preview" becomes "gpt-4.5-preview" |
| Text.SlugHelloWorld2023 | functions/text/slug_test.go:28-29 | "Hello, World! @2023" becomes "hello-world-2023" |
| Text.TitleHelloWorld | functions/text/title_test.go:18-19 | "hello-world" becomes "Hello World" |
| Text.TitleGptPreview | functions/text/title_test.go:23-24 | "gpt-4.5-preview" becomes "GPT 4.5 Preview" |
| Text.TitleHelloWorld2023 | functions/text/title_test.go:28-29 | "hello-world-2023" becomes "Hello World 2023" |
| Date.Lookup | date/format.go:26 | Only single characters have an entry in the code table |
| Date.UnmappedCodes | date/syntax.go:5-88 | The codes mapped to "" are exactly the PHP codes with no Go equivalent |
| Date.KnownCodes | date/syntax.go:7-63 | d, m, Y, H, i and s map to 02, 01, 2006, 15, 04 and 05 |
| Date.CompositeCodes | date/syntax.go:83-85 | c and r map to the ISO 8601 and RFC 2822 layouts |
| Date.LayoutOf | date/format.go:26-41 | A mapped code gives its layout; an unmapped one, or one mapped to "", is copied as is |
| Date.Format | date/format.go:21-45 | Never fails; an empty format gives the empty layout and a one-byte format the layout of that byte |
| Date.FormatHomomorphic | date/format.go:21-45 | Rendering a format is rendering each byte and concatenating; it never fails and does not depend on the time |
| Date.TranslateCopies | date/format.go:26-39 | A format of bytes with no code comes back unchanged |
| Date.DefaultLayout | date/syntax.go:3 | The default format "Y-m-d H:i:s" renders as "2006-01-02 15:04:05" |
| Date.LayoutAsWritten | date/format.go:30-37 | As written, every ASCII byte gets the corrected layout |
| Date.FormatAsWritten | date/format.go:21-45 | The as-written translation never fails |
| Date.AsciiFormatsAgree | date/format.go:30-37 | On ASCII formats the as-written and corrected renderings agree |
| Date.NonAsciiReencoded | date/format.go:30-37 | As written, "é" (bytes C3 A9) becomes C3 83 C2 A9; the corrected rendering keeps it |
| Floats.PrintedIntIsTruncation | functions/collections/key.go:145-148 | A float that `shorten` reads as a length (Atoi of its printed form) converts to the same int under `int(f)` in `convertToInt` |

## Left out

- Non-ASCII case mapping, Unicode white space beyond what is stated above, and the
  regular-expression engine: every pattern of functions/text is modelled by its own
  scanning function.
- `strings.Split` with an empty separator, which splits into UTF-8 characters. The model
  splits on non-empty separators only. The split filter with "" is covered only by its
  success condition (`Text.Split`).
- Sized integer types other than `int` (int32, int64, float32) appear only as type names
  in `DetectType`.
- Float parsing and printing beyond what `strconv.Atoi(fmt.Sprint(f))` and `int(f)` need
  for filter arguments and `convertToInt`. `isFloat` (render.go:231-234) is modelled by
  the syntax of decimal literals (digits, an optional fraction and an optional exponent)
  and of the `inf`/`nan` spellings. Go's range checks, rounding, `_` digit separators and
  hexadecimal literals are not modelled; the next line says what that changes.
- Pipeline.ClassifyArg, Functions.LengthArg, Functions.ConditionIsTrue: a float literal is
  judged by its syntax and kept as its text, not as the nearest float64. Where Go differs:
  "1e400" is out of range, so `isFloat` is false and Go makes a variable reference where
  the model makes a float; "1_000" is the float 1000 in Go and a variable reference here;
  "0.99999999999999999999" rounds to 1.0, so Go's `shorten` reads the length 1 where the
  model reads 0; "1e-400" underflows to 0.0, a false condition in Go and a true one here.
- Text.TrimText: a cut set is matched byte by byte. Go's `strings.Trim` decodes a
  non-ASCII cut set into runes, so with the text "À" (bytes C3 80) and the cut set "é"
  (C3 A9) Go keeps "À" while the model cuts the shared byte C3.
- Pipeline.IsFloat: the contract states only that digit runs are floats; the accepted
  syntax is the definition itself (`IsDecimalFloat`, `IsSpecialFloat`).
- The clock write at manager.go:56 (`time.Now()` stored in the system variables). The
  caller passes it in with the system variables instead.
- `RenderString` (types.go) and the `Render` methods at sintax.go:38-50 and
  manager.go:41-53. Each is a parse followed by a render, both modelled.
- `convertToMapKeyType` (functions/collections/key.go:96-121) for maps with non-string
  keys, and the `reflect.Ptr` branch at functions/collections/key.go:36-40. Every map here has
  string keys and no value has a `*T` type.
- Logging (`slog` calls) has no effect on results.
- The money, `eq`, `gt`, JSON/YAML/from and utils/format filters, and the builtins
  `format`, `json` and `yaml`, which call time formatting and the JSON and YAML encoders.
  The builtins are parameters of `Builtins.BuiltinFunctions`.
- The time value of the date formatter is read by `(*Date).Format` only for a trace log
  line (date/format.go:23), so `Date` carries nothing.
- Evaluation of If, Else and ShorthandIf tokens. render.go:56-60 does nothing for them,
  and the model does the same.
- The filesystem and command calls of builtins.go.
- Error messages are kept as data and never formatted.
- `ParseVariable`'s wrapper (parser.go:70-77) only re-wraps the parse error.
- The parameter helpers of functions/utils.go, which are not part of this model (see
  above). `find`, `map`, `title` and `slug` are modelled for every behaviour of these
  helpers.
- Functions.Key: only the failure cases are stated as a contract. The success path is
  stated by `Functions.KeyDirect` and `Functions.KeyDescends`.
- Collections.LookUp: the contract states the failure cases; success is stated through
  `Collections.NestedLookupCounterexample`, `Collections.KeyUnwraps` and
  `Collections.FirstIsIndexZero`.
- Render.Render, Render.RunTurns, Render.TurnFor: the contracts state the error shapes.
  What a render produces is stated by `Render.RenderConcatenates` (no token ends the
  loop), `Render.RenderStopsAt` (the first token that ends it), `Render.RenderOne` and
  `Render.SilentTokenVanishes`. The model computes every token's turn before running the
  loop; each turn is a pure function of its token and the scope, so the turns after the
  one that ends the loop cannot change the result.
- Sintax.ResolveBatchFixpoint: stated for keys whose template reads batch keys only as
  variables or pipeline bases. A filter argument that names a batch key is not a graph
  edge, because the graph sintax.go's comments describe has none for it either.
- Manager.ResolveVariablesPrecedence: stated for values a pass copies unchanged. Templates
  are stated by `Manager.ResolvePassSees`.
- Functions.LookupPath, Collections.HandleMap, Collections.Descend: the contracts state
  only failure cases. What a successful path lookup returns is stated by
  `Functions.KeyDescends` and `Collections.DescendAgrees`.
- Pipeline.SplitRespectingQuotes: the contract states the shape (trimmed pieces). The
  content is stated by `Pipeline.SplitPieces` on the raw split, and of the raw split by
  `Pipeline.SplitLossless` and `Pipeline.SplitKeepsQuotedSpans`.
- Sintax.ResolveValueShape, Sintax.ResolveVariables: the contracts state what is kept and the
  error shapes. What a template resolves to is stated by `Sintax.ResolveReference`,
  `Sintax.ResolveValueFrame` and the batch lemmas; the merge by
  `Sintax.ResolveVariablesPrecedence`.
- Date.Format: the contract states the empty and one-byte formats; longer formats are
  stated by `Date.FormatHomomorphic`.
- Text.CollapseRuns, Text.MatchDots, Text.ReplaceDots, Text.RewriteDots: the contracts
  state local properties of the regular-expression rewrites. Their combined effect is
  stated by `Text.TitleToSlug`, `Text.SlugOfTitle`, `Text.DigitDotsSurvive` and the
  worked slug cases.
- Date.Lookup: only states that entries are single characters. The table's contents are
  stated by `Date.KnownCodes`, `Date.CompositeCodes` and `Date.UnmappedCodes`.
- Sintax.ResolveBatchAsWritten, Date.FormatAsWritten: the as-written members state only
  their keys or success. Their discrepancies are stated by the counterexample lemmas under
  Findings.

## Findings

| source | as written | input that shows it | evidently intended | confidence | as-written member | corrected member |
|---|---|---|---|---|---|---|
| functions/collections/key.go:54 | `reflect.ValueOf(m).MapIndex(k)` on a `map[string]any` yields an interface-kind value, so the `Kind() != reflect.Map` check rejects every nested map | `{"a": {"b": 1}}` with path `a.b` fails | descend into the nested map and return 1, as `functions.Key` does | not executed | Collections.NestedLookupCounterexample | Collections.DescendAgrees |
| date/format.go:30-37 | `string(format[i])` converts a byte to a rune, so a byte at or above 0x80 is re-encoded as two UTF-8 bytes | format "é" (bytes C3 A9) renders as C3 83 C2 A9 | copy unmapped bytes unchanged | not executed | Date.NonAsciiReencoded | Date.AsciiFormatsAgree |
| sintax.go:119-125 | resolves batch variables in map iteration order, without the `topoSort` the file defines, so a template may be rendered before the variable it names | system `{r: "x"}`, batch `{a: "{{r}}", b: "{{a}}"}`, order b, a: b ends as "{{r}}" | resolve in dependency order, as the tests expect | not executed | Sintax.ChainOrderCounterexample | Sintax.ChainResolved |
