/**
 The filters every manager starts with (functions.go): the registry `BuiltinFunctions`
 and the filters it names that are defined in that file. `format`, `json` and `yaml`
 call the date library and the JSON and YAML encoders, so they are parameters.
 */
module Builtins {
  import opened Wrappers
  import opened Strings
  import opened Values
  import Functions
  import opened Token
  import Pipeline
  import Parser
  import Render

  /** The names the builtin registry binds. */
  const BuiltinNames: set<string> :=
    {"format", "default", "json", "yaml", "sexy", "lines", "join", "trim", "shorten", "length"}

  /** `BuiltinFunctions`. `join` is the same code as the filter of that name in package
      functions. */
  function BuiltinFunctions(format: Filter, json: Filter, yaml: Filter): (r: Registry)
    ensures r.Keys == BuiltinNames
  {
    map[
      "format" := format,
      "default" := ToDefault,
      "json" := json,
      "yaml" := yaml,
      "sexy" := ToSexy,
      "lines" := ToLines,
      "join" := Functions.Join,
      "trim" := Trim,
      "shorten" := Shorten,
      "length" := Length]
  }

  /** Each name is bound to the filter of that name: the three given ones and the ones
      defined below. */
  lemma {:induction false} BuiltinBindings(format: Filter, json: Filter, yaml: Filter)
    ensures var r := BuiltinFunctions(format, json, yaml);
      && r["format"] == format && r["json"] == json && r["yaml"] == yaml
      && r["default"] == ToDefault && r["sexy"] == ToSexy && r["lines"] == ToLines
      && r["join"] == Functions.Join && r["trim"] == Trim
      && r["shorten"] == Shorten && r["length"] == Length
  {
  }

  /** The text `toSexy` returns, one char per UTF-8 byte. */
  const SexyBear: string :=
    "\n\t \U{CA}\U{95}\U{E2}\U{80}\U{A2}\U{E1}\U{B4}\U{A5}\U{E2}\U{80}\U{A2}\U{CA}\U{94}"
    + "\n\t/\\o-o/\\"
    + "\n\t | \U{E1}\U{B4}\U{A5} |"
    + "\n\t \\_|_/"
    + "\n\t"

  /** `toSexy`: the same text whatever it is given. */
  function ToSexy(value: Value, params: seq<Value>): (r: FilterOut)
    ensures r == Done(Str(SexyBear))
  {
    Done(Str(SexyBear))
  }

  /** `toDefault`: nil and the empty string become the first argument, everything else is
      kept. Unlike `Default` of package functions it does not check for an argument, so
      with none the index expression `params[0]` panics. */
  function ToDefault(value: Value, params: seq<Value>): (r: FilterOut)
    ensures r.Panicked? <==> (value.Nil? || value == Str("")) && |params| == 0
    ensures r.Returned? ==> r.err.None?
    ensures |params| > 0 ==> r == Functions.Default(value, params)
  {
    if value.Nil? then
      if |params| == 0 then Panicked("index out of range [0] with length 0") else Done(params[0])
    else if value == Str("") then
      if |params| == 0 then Panicked("index out of range [0] with length 0") else Done(params[0])
    else Done(value)
  }

  /** `pieces` are the lines of `s`: one more than the newlines, none holding a newline. */
  predicate NewlinePieces(s: string, pieces: seq<string>) {
    && |pieces| == Count(s, "\n") + 1
    && forall k :: 0 <= k < |pieces| ==> '\n' !in pieces[k]
  }

  lemma {:induction false} LinePieces(s: string)
    ensures NewlinePieces(s, Split(s, "\n"))
  {
    Functions.LinesCount(s);
    assert Functions.Lines(Str(s), []).value.strs == Split(s, "\n");
  }

  /** `toLines`: nil gives nil without error; a string, and a `[]byte` read as a string,
      give their `"\n"`-separated pieces as a `[]string`; anything else is an error. */
  function ToLines(value: Value, params: seq<Value>): (r: FilterOut)
    ensures r.Returned?
    ensures r.err.None? <==> value.Nil? || value.Str? || value.Bytes?
    ensures value.Nil? ==> r.value == Nil
    ensures value.Str? ==> r.value.StrList? && Strings.Join(r.value.strs, "\n") == value.s
    ensures value.Bytes? ==> r.value.StrList? && Strings.Join(r.value.strs, "\n") == value.data
    ensures value.Str? || value.Bytes? ==> NewlinePieces(TextOf(value), r.value.strs)
  {
    match value
    case Nil => Done(Nil)
    case Str(s) =>
      SplitJoin(s, "\n");
      LinePieces(s);
      Done(StrList(Split(s, "\n")))
    case Bytes(d) =>
      SplitJoin(d, "\n");
      LinePieces(d);
      Done(StrList(Split(d, "\n")))
    case _ => Fail(Nil, "lines function expected string")
  }

  /** `trim`: a string loses its surrounding white space; every other value, `[]byte`
      included, comes back unchanged. There is never an error. */
  function Trim(value: Value, params: seq<Value>): (r: FilterOut)
    ensures r.Returned? && r.err.None?
    ensures value.Str? ==> r.value.Str? && SpaceTrimmed(value.s, r.value.s)
    ensures !value.Str? ==> r.value == value
  {
    match value
    case Str(v) => Done(Str(TrimSpace(v)))
    case _ => Done(value)
  }

  /** `trim` is idempotent, and agrees with the package's `Trim` except on `[]byte`. */
  lemma {:induction false} TrimSettles(value: Value, p: seq<Value>, q: seq<Value>)
    ensures Trim(Trim(value, p).value, q) == Trim(value, p)
    ensures !value.Bytes? ==> Trim(value, p) == Functions.Trim(value, q)
  {
    if value.Str? {
      TrimSpaceIdempotent(value.s);
    }
  }

  /** `shorten`: the code of `Shorten` in package functions, except that the error for an
      argument count other than one reads "shorten requires 1 argument". */
  function Shorten(value: Value, args: seq<Value>): (r: FilterOut)
    ensures !(value.Str? && |args| != 1) ==> r == Functions.Shorten(value, args)
    ensures value.Str? && |args| != 1 ==>
      r.Returned? && r.err.Some? && r.value == Functions.Shorten(value, args).value
  {
    match value
    case Str(_) =>
      if |args| != 1 then Fail(Str(""), "shorten requires 1 argument")
      else Functions.Shorten(value, args)
    case _ => Functions.Shorten(value, args)
  }

  /** `length`: the byte length of a string in decimal; anything else is an error returned
      with the value "". */
  function Length(value: Value, params: seq<Value>): (r: FilterOut)
    ensures r.Returned?
    ensures r.err.None? <==> value.Str?
    ensures value.Str? && InInt64(|value.s|) ==> r.value.Str? && Atoi(r.value.s) == Some(|value.s|)
    ensures r.err.Some? ==> r.value == Str("")
  {
    match value
    case Str(str) =>
      ItoaReadsBack(|str|);
      Done(Str(Itoa(|str|)))
    case _ => Fail(Str(""), "length requires a text argument")
  }

  /** The pipeline `trim | shorten:n | length` of the renderer's tests: for any text and
      any non-negative n it yields the length, in decimal, of the trimmed text cut to n. */
  lemma {:induction false} TrimShortenLength(format: Filter, json: Filter, yaml: Filter, s: string, n: int)
    requires 0 <= n <= MaxInt64
    ensures var registry := BuiltinFunctions(format, json, yaml);
      var t := TrimSpace(s);
      && registry["trim"](Str(s), []) == Done(Str(t))
      && registry["shorten"](Str(t), [Int(n)]) == Done(Str(t[..Functions.Min(|t|, n)]))
      && registry["length"](Str(t[..Functions.Min(|t|, n)]), []) == Done(Str(Itoa(Functions.Min(|t|, n))))
  {
    BuiltinBindings(format, json, yaml);
    ItoaAtoi(n);
  }

  /** The test's instance: `" Hello, World! "` becomes `"5"`. */
  lemma {:induction false} HelloWorldIsFive(format: Filter, json: Filter, yaml: Filter)
    ensures var registry := BuiltinFunctions(format, json, yaml);
      var t := registry["trim"](Str(" " + "Hello, World!" + " "), []);
      var u := registry["shorten"](t.value, [Int(5)]);
      t.Returned? && u.Returned? && registry["length"](u.value, []) == Done(Str("5"))
  {
    var registry := BuiltinFunctions(format, json, yaml);
    BuiltinBindings(format, json, yaml);
    var t := "Hello, World!";
    TrimSpaceOfPadded(t);
    TrimShortenLength(format, json, yaml, " " + t + " ", 5);
    var m := Functions.Min(|t|, 5);
    assert m == 5;
    assert registry["trim"](Str(" " + t + " "), []) == Done(Str(t));
    assert registry["shorten"](Str(t), [Int(5)]) == Done(Str(t[..m]));
    assert registry["length"](Str(t[..m]), []) == Done(Str(Itoa(m)));
    assert Itoa(5) == "5";
  }
  // ---------------------------------------------------------------------------
  // The chain `trim | shorten:n | length` from template text to output
  // ---------------------------------------------------------------------------

  /** The placeholder contents `v | trim | shorten:n | length`. */
  function ChainText(v: string, n: nat): string {
    v + " | trim | shorten:" + Itoa(n) + " | length"
  }

  /** The calls the chain parses into. */
  function ChainCalls(n: nat): seq<Pipeline.Func> {
    [Pipeline.Func("trim", []), Pipeline.Func("shorten", [Pipeline.Literal(Int(n))]), Pipeline.Func("length", [])]
  }

  /** A variable name that no keyword rule claims. */
  predicate PlainName(v: string) {
    Parser.IsVariableName(v) && !HasPrefix(v, "if") && !HasPrefix(v, "else")
  }

  /** The chain text is the one the pipeline lemma reads, with the three call names. */
  lemma {:induction false} ChainTextWords(v: string, n: nat)
    ensures ChainText(v, n) == v + " | " + "trim" + " | " + "shorten" + ":" + Itoa(n) + " | " + "length"
  {
    var d := Itoa(n);
    assert " | " + "trim" + " | " + "shorten" + ":" == " | trim | shorten:";
    assert " | " + "length" == " | length";
    calc {
      v + " | " + "trim" + " | " + "shorten" + ":" + d + " | " + "length";
      v + (" | " + "trim" + " | " + "shorten" + ":") + d + (" | " + "length");
      v + " | trim | shorten:" + d + " | length";
    }
  }

  /** A variable name is a plain word of a pipeline. */
  lemma {:induction false} NameIsPlainWord(v: string)
    requires Parser.IsVariableName(v)
    ensures Pipeline.PlainWord(v)
  {
    assert forall k :: 0 < k < |v| ==> Parser.IsNameChar(v[k]);
    assert !IsSpace(v[|v| - 1]) by { assert |v| == 1 || Parser.IsNameChar(v[|v| - 1]); }
  }

  /** The chain's pipeline: the variable and the three calls. */
  lemma {:induction false} ChainPipeline(v: string, n: nat)
    requires Parser.IsVariableName(v) && InInt64(n)
    ensures Pipeline.GetVarAndFunctions(ChainText(v, n)) == Ok((v, ChainCalls(n)))
  {
    NameIsPlainWord(v);
    ChainTextWords(v, n);
    Pipeline.ChainOfThree(v, "trim", "shorten", n, "length");
  }

  /** The characters of the chain text: those of the name, of the decimal number, and of
      the fixed parts. */
  lemma {:induction false} ChainChars(v: string, n: nat, x: char)
    requires x in ChainText(v, n)
    ensures x in v || x in Itoa(n) || x in " | trim | shorten:" || x in " | length"
  {
  }

  /** The chain text holds no brace and no `?`, starts with the name and ends in `h`. */
  lemma {:induction false} ChainShape(v: string, n: nat)
    requires Parser.IsVariableName(v)
    ensures var w := ChainText(v, n);
      && Parser.NoBraces(w) && '?' !in w
      && |w| > |v| + 1 && w[..|v|] == v && w[|v|] == ' ' && w[|v| + 1] == '|' && w[|w| - 1] == 'h'
  {
    var w := ChainText(v, n);
    var d := Itoa(n);
    assert forall k :: 0 <= k < |d| ==> IsDigit(d[k]);
    assert forall k :: 0 < k < |v| ==> Parser.IsNameChar(v[k]);
    forall k | 0 <= k < |w| ensures w[k] != '{' && w[k] != '}' && w[k] != '?' {
      ChainChars(v, n, w[k]);
    }
  }

  /** A text without a character holds no text that has it. */
  lemma {:induction false} LacksCharLacks(s: string, sub: string, i: nat, c: char)
    requires i < |sub| && sub[i] == c && c !in s
    ensures !Contains(s, sub)
  {
    forall j | 0 <= j <= |s| ensures !OccursAt(s, sub, j) {
      if j + |sub| <= |s| {
        assert s[j..j + |sub|][i] == s[j + i];
      }
    }
  }

  /** A name followed by a space-led text starts with a keyword only if the name does. */
  lemma {:induction false} NoKeywordPrefix(v: string, rest: string, p: string)
    requires !HasPrefix(v, p) && |rest| > 0 && rest[0] == ' ' && ' ' !in p
    ensures !HasPrefix(v + rest, p)
  {
    if |p| <= |v + rest| {
      if |p| <= |v| {
        assert (v + rest)[..|p|] == v[..|p|];
      } else {
        assert (v + rest)[..|p|][|v|] == ' ';
      }
    }
  }

  /** The chain's contents are classified as a filtered variable. */
  lemma {:induction false} ChainClassified(v: string, n: nat)
    requires PlainName(v)
    ensures Parser.Classify(ChainText(v, n)) == FilteredVariable
  {
    var w := ChainText(v, n);
    ChainShape(v, n);
    var rest := w[|v|..];
    assert w == v + rest;
    NoKeywordPrefix(v, rest, "if");
    NoKeywordPrefix(v, rest, "else");
    assert !HasPrefix(w, "/if") by { assert w[0] == v[0]; }
    LacksCharLacks(w, " ? ", 1, '?');
    assert !Parser.IsVariableName(w) by { assert !Parser.IsNameChar(w[|v|]); }
    assert ContainsChar(w, '|') by { assert w[|v| + 1] == '|'; }
  }

  /** `{{ v | trim | shorten:n | length }}` is one FilteredVariable token on the chain. */
  lemma {:induction false} ChainParses(v: string, n: nat)
    requires PlainName(v)
    ensures var w := ChainText(v, n);
      Parser.Parse("{{ " + w + " }}") == Ok([BaseToken(FilteredVariable, w, Pipeline.BaseName(w), [])])
  {
    var w := ChainText(v, n);
    ChainShape(v, n);
    ChainClassified(v, n);
    assert w[0] == v[0];
    Parser.FilteredPlaceholder(w);
  }

  /** The three filters of the chain, bound by name. */
  ghost predicate BindsChain(registry: Registry) {
    && "trim" in registry && registry["trim"] == Trim
    && "shorten" in registry && registry["shorten"] == Shorten
    && "length" in registry && registry["length"] == Length
  }

  /** With the three filters bound, the chain's calls take a string to the length of its
      trimmed text cut to n. */
  lemma {:induction false} RunChain(registry: Registry, s: string, n: nat, vars: Render.Scope)
    requires BindsChain(registry) && InInt64(n)
    ensures Render.ApplyFuncs(registry, ChainCalls(n), Str(s), vars, false) ==
      Ok(Str(Itoa(Functions.Min(|TrimSpace(s)|, n))))
  {
    var fs := ChainCalls(n);
    var t := TrimSpace(s);
    var u := t[..Functions.Min(|t|, n)];
    assert fs[1..][1..] == fs[2..];
    calc {
      Render.ApplyFuncs(registry, fs, Str(s), vars, false);
      { ApplyTrim(registry, s, vars); }
      Render.ApplyFuncs(registry, fs[1..], Str(t), vars, false);
      { ApplyShorten(registry, t, n, vars); }
      Render.ApplyFuncs(registry, fs[2..], Str(u), vars, false);
      { ApplyLength(registry, u, vars); }
      Render.ApplyFuncs(registry, [], Str(Itoa(|u|)), vars, false);
    }
  }

  lemma {:induction false} ApplyTrim(registry: Registry, s: string, vars: Render.Scope)
    requires BindsChain(registry)
    ensures Render.ApplyOne(registry, Pipeline.Func("trim", []), Str(s), vars, false) == Ok(Str(TrimSpace(s)))
  {
    assert Render.ResolveArgs([], vars) == Ok([]);
  }

  lemma {:induction false} ApplyShorten(registry: Registry, t: string, n: nat, vars: Render.Scope)
    requires BindsChain(registry) && InInt64(n)
    ensures Render.ApplyOne(registry, Pipeline.Func("shorten", [Pipeline.Literal(Int(n))]), Str(t), vars, false) ==
      Ok(Str(t[..Functions.Min(|t|, n)]))
  {
    var args := [Pipeline.Literal(Int(n))];
    assert Render.ResolveArgs(args, vars) == Ok([Int(n)]) by {
      var r := Render.ResolveArgs(args, vars);
      assert !args[0].VarRef?;
      assert r.Ok? && |r.value| == 1 && r.value[0] == Int(n);
      assert r.value == [Int(n)];
    }
    ItoaAtoi(n);
    assert Shorten(Str(t), [Int(n)]) == Done(Str(t[..Functions.Min(|t|, n)]));
  }

  lemma {:induction false} ApplyLength(registry: Registry, u: string, vars: Render.Scope)
    requires BindsChain(registry)
    ensures Render.ApplyOne(registry, Pipeline.Func("length", []), Str(u), vars, false) == Ok(Str(Itoa(|u|)))
  {
    assert Render.ResolveArgs([], vars) == Ok([]);
  }

  /** The renderer's multiple-functions case, from template text to output: with `trim`,
      `shorten` and `length` bound to the builtins, `{{ v | trim | shorten:n | length }}`
      with v bound to a string s renders the length, in decimal, of s trimmed and cut to n. */
  lemma {:induction false} ChainRenders(registry: Registry, v: string, s: string, n: nat, vars: Render.Scope)
    requires BindsChain(registry) && PlainName(v) && InInt64(n) && v in vars && vars[v] == Str(s)
    ensures var parsed := Parser.Parse("{{ " + v + " | trim | shorten:" + Itoa(n) + " | length }}");
      parsed.Ok? && Render.Render(registry, parsed.value, vars) == Ok(Str(Itoa(Functions.Min(|TrimSpace(s)|, n))))
  {
    var w := ChainText(v, n);
    var tok := BaseToken(FilteredVariable, w, Pipeline.BaseName(w), []);
    var out := Itoa(Functions.Min(|TrimSpace(s)|, n));
    ChainTemplate(v, n);
    ChainParses(v, n);
    ChainTokenRenders(registry, v, s, n, vars);
    Render.RenderSingle(registry, tok, vars, out);
  }

  /** The template is the chain text inside `{{ ` and ` }}`. */
  lemma {:induction false} ChainTemplate(v: string, n: nat)
    ensures "{{ " + v + " | trim | shorten:" + Itoa(n) + " | length }}" == "{{ " + ChainText(v, n) + " }}"
  {
    var d := Itoa(n);
    assert " | length }}" == " | length" + " }}";
    calc {
      "{{ " + v + " | trim | shorten:" + d + " | length }}";
      "{{ " + v + " | trim | shorten:" + d + (" | length" + " }}");
      "{{ " + (v + " | trim | shorten:" + d + " | length") + " }}";
    }
  }

  /** The chain's token renders to the length of the trimmed, shortened text. */
  lemma {:induction false} ChainTokenRenders(registry: Registry, v: string, s: string, n: nat, vars: Render.Scope)
    requires BindsChain(registry) && Parser.IsVariableName(v) && InInt64(n) && v in vars && vars[v] == Str(s)
    ensures var w := ChainText(v, n);
      Render.RenderVariable(registry, BaseToken(FilteredVariable, w, Pipeline.BaseName(w), []), vars) ==
        Ok(Str(Itoa(Functions.Min(|TrimSpace(s)|, n))))
  {
    var w := ChainText(v, n);
    var tok := BaseToken(FilteredVariable, w, Pipeline.BaseName(w), []);
    var fs := ChainCalls(n);
    calc {
      Render.RenderVariable(registry, tok, vars);
      { ChainPipeline(v, n); Render.RenderFiltered(registry, tok, v, fs, vars); }
      Render.RunPipeline(registry, v, fs, vars);
      { NoDefaultInChain(n); }
      Render.ApplyFuncs(registry, fs, Str(s), vars, false);
      { RunChain(registry, s, n, vars); }
      Ok(Str(Itoa(Functions.Min(|TrimSpace(s)|, n))));
    }
  }

  lemma {:induction false} NoDefaultInChain(n: nat)
    ensures !Pipeline.HasDefaultFunction(ChainCalls(n))
  {
  }
  /** The renderer's test, end to end: `{{ x | trim | shorten:5 | length }}` with x bound
      to `" Hello, World! "` renders `"5"`. */
  lemma {:induction false} HelloWorldRendersFive(format: Filter, json: Filter, yaml: Filter)
    ensures var parsed := Parser.Parse("{{ x | trim | shorten:5 | length }}");
      parsed.Ok? && Render.Render(BuiltinFunctions(format, json, yaml), parsed.value, map["x" := Str(" Hello, World! ")]) == Ok(Str("5"))
  {
    var registry := BuiltinFunctions(format, json, yaml);
    var vars := map["x" := Str(" Hello, World! ")];
    BuiltinBindings(format, json, yaml);
    assert Parser.IsVariableName("x");
    ChainRenders(registry, "x", " Hello, World! ", 5, vars);
    HelloWorldFacts();
  }

  lemma {:induction false} HelloWorldFacts()
    ensures "{{ " + "x" + " | trim | shorten:" + Itoa(5) + " | length }}" == "{{ x | trim | shorten:5 | length }}"
    ensures Itoa(Functions.Min(|TrimSpace(" Hello, World! ")|, 5)) == "5"
  {
    FiveDigits();
    HelloWorldTemplate("5");
    HelloWorldTrimmed(" Hello, World! ");
  }

  lemma {:induction false} FiveDigits()
    ensures Itoa(5) == "5"
  {
  }

  lemma {:induction false} HelloWorldTemplate(d: string)
    requires d == "5"
    ensures "{{ " + "x" + " | trim | shorten:" + d + " | length }}" == "{{ x | trim | shorten:5 | length }}"
  {
  }

  lemma {:induction false} HelloWorldTrimmed(s: string)
    requires s == " Hello, World! "
    ensures |TrimSpace(s)| == 13
  {
    assert s == " " + "Hello, World!" + " ";
    TrimSpaceOfPadded("Hello, World!");
  }
}
