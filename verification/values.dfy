/**
 The dynamic values the template engine passes around (Go's `any`), the shape of a
 filter function, and the engine's error kinds.

 Go code distinguishes values by their dynamic type with type switches; a `[]string`,
 a `[]any` and a `[]map[string]any` take different branches. Each such Go type is one
 variant here, so every type switch becomes an exhaustive `match`.
 */
module Values {
  import opened Wrappers

  datatype Value =
    | Nil                                               // untyped nil
    | Str(s: string)                                    // string
    | Bytes(data: string)                               // []byte, one char per byte
    | Byte(octet: char)                                 // a single uint8
    | Int(n: int)                                       // int (64-bit)
    | Float(literal: string)                            // float64, kept as the literal that produced it
    | Bool(flag: bool)                                  // bool
    | List(items: seq<Value>)                           // []any
    | StrList(strs: seq<string>)                        // []string
    | BytesList(chunks: seq<string>)                    // [][]byte
    | Map(entries: map<string, Value>)                  // map[string]any
    | MapList(maps: seq<map<string, Value>>)            // []map[string]any
    | MapOfMaps(groups: map<string, map<string, Value>>) // map[string]map[string]any
    | Other(typeName: string)                           // any other Go type (time.Time, *T, ...)

  /** Go's `v == s` for an interface value and a string constant: true only for that string. */
  predicate IsString(v: Value, s: string) {
    v == Str(s)
  }

  /** `fmt.Sprintf("%t", b)`. */
  function BoolText(b: bool): (r: string)
    ensures r == "true" || r == "false"
    ensures (r == "true") <==> b
  {
    if b then "true" else "false"
  }

  /** An error returned by a filter. `allowsDefault` marks an error that wraps the
      `ErrAllowsDefaultFunc` sentinel, which a pipeline with a `default` filter swallows. */
  datatype FilterError = FilterError(message: string, allowsDefault: bool)

  /** What a call of a filter does: it returns a value and an optional error (Go's
      `(any, error)` pair, both halves of which the renderer may use), or it panics. */
  datatype FilterOut =
    | Returned(value: Value, err: Option<FilterError>)
    | Panicked(reason: string)

  /** A successful filter result. */
  function Done(v: Value): FilterOut {
    Returned(v, None)
  }

  /** A failed filter result carrying the value the Go code returns alongside the error. */
  function Fail(v: Value, message: string): FilterOut {
    Returned(v, Some(FilterError(message, false)))
  }

  /** Go's `GlobalModifier`: `func(val any, params []any) (any, error)`. */
  type Filter = (Value, seq<Value>) -> FilterOut

  /** The map from filter name to filter that the renderer consults. */
  type Registry = map<string, Filter>

  /** Where an error was wrapped with `fmt.Errorf("...: %w", err)`. */
  datatype Context =
    | RenderingToken(name: string)     // "failed to render variable token '%s'"
    | RenderingVariable(name: string)  // "failed to render variable '%s'"
    | ResolvingMap(name: string)       // "failed to resolve map variable '%s'"
    | ConfigVariables                  // "failed to resolve config variables"
    | ActionVariables                  // "failed to resolve action variables"

  /** The engine's error kinds (the sentinels of types.go), the sort's own cycle error and
      Go runtime panics. */
  datatype Error =
    | InvalidTokenType(code: int)
    | VariableNotFound(name: string)
    | FunctionNotFound(name: string)
    | FunctionApplyFailed(cause: FilterError)
    | CycleDetected        // errors.New("circular dependency detected"), not ErrCircularDependency
    | Crash(reason: string)
    | Wrapped(context: Context, inner: Error)

  /** The innermost error, the one `errors.Is` would find under the wrappers. */
  function Cause(e: Error): (r: Error)
    ensures !r.Wrapped?
  {
    if e.Wrapped? then Cause(e.inner) else e
  }

  /** `fmt.Errorf("<context>: %w", err)`: the error gains a context and keeps its cause.
      A panic is not an error value, so no wrapper ever sees it. */
  function WrapError(context: Context, e: Error): (r: Error)
    ensures Cause(r) == Cause(e)
    ensures r.Crash? <==> e.Crash?
    ensures !e.Crash? ==> r.Wrapped? && r.context == context && r.inner == e
  {
    if e.Crash? then e else Wrapped(context, e)
  }

  /** The text of a string or a `[]byte`. */
  function TextOf(value: Value): string
    requires value.Str? || value.Bytes?
  {
    if value.Str? then value.s else value.data
  }
}
