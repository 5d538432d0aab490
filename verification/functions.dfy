/**
 The filters of package `functions` (the files directly under functions/). Every filter
 takes the piped value and the call's arguments and returns a value together with an
 optional error; none of them panics.
 */
module Functions {
  import opened Wrappers
  import opened Strings
  import opened Values
  import Floats

  /** The package's parameter helpers `ParamAny`, `ParamString`, `ValueString` and
      `ParamStringList` are defined in files this model does not include; the filters that
      use them take them as arguments, each a total function returning a value or an
      error message. */
  datatype Helpers = Helpers(
    paramAny: (seq<Value>, nat) -> Result<Value, string>,
    paramString: (seq<Value>, nat) -> Result<string, string>,
    valueString: Value -> Result<string, string>,
    paramStringList: seq<Value> -> Result<seq<string>, string>)

  // ---------------------------------------------------------------------------
  // key.go
  // ---------------------------------------------------------------------------

  /** `Key`: a dotted path looked up through nested `map[string]any` values. The value
      must be such a map, which is checked before the arguments; the first argument must
      be a string and is split on `.`. */
  function Key(value: Value, params: seq<Value>): (r: FilterOut)
    ensures r.Returned? && (r.err.Some? ==> r.value == Nil)
    ensures !value.Map? ==> r.err.Some?
    ensures |params| == 0 || !params[0].Str? ==> r.err.Some?
  {
    match value
    case Map(m) =>
      if |params| == 0 then Fail(Nil, "key function requires a key parameter")
      else if !params[0].Str? then Fail(Nil, "key function requires a string key parameter")
      else LookupPath(m, Split(params[0].s, "."))
    case _ => Fail(Nil, "key function expected map")
  }

  /** The loop over the path segments: each must be present, every one but the last must
      hold a `map[string]any`, and the last one's value is returned whatever its type. */
  function LookupPath(m: map<string, Value>, parts: seq<string>): (r: FilterOut)
    requires |parts| >= 1
    ensures r.Returned? && (r.err.Some? ==> r.value == Nil)
    ensures parts[0] !in m ==> r.err.Some?
    decreases |parts|
  {
    if parts[0] !in m then Fail(Nil, "key function: path segment not found in map")
    else if |parts| == 1 then Done(m[parts[0]])
    else if !m[parts[0]].Map? then Fail(Nil, "key function: path segment is not a map; cannot continue nested lookup")
    else LookupPath(m[parts[0]].entries, parts[1..])
  }

  /** A path without a dot is a direct lookup, whatever type the entry has; the empty path
      looks up the key "". */
  lemma {:induction false} KeyDirect(m: map<string, Value>, k: string)
    requires '.' !in k
    ensures Key(Map(m), [Str(k)]).err.None? <==> k in m
    ensures k in m ==> Key(Map(m), [Str(k)]) == Done(m[k])
  {
    SplitNoSep(k, '.');
  }

  /** A path `first.rest` descends one level: it fails unless `first` holds a map, and then
      it is the lookup of `rest` in that map. Extra arguments are ignored. */
  lemma {:induction false} KeyDescends(m: map<string, Value>, first: string, rest: string, extra: seq<Value>)
    requires '.' !in first
    ensures var r := Key(Map(m), [Str(first + "." + rest)] + extra);
      && (first !in m || !m[first].Map? ==> r.err.Some?)
      && (first in m && m[first].Map? ==> r == Key(m[first], [Str(rest)]))
  {
    SplitFirst(first, '.', rest);
  }

  // ---------------------------------------------------------------------------
  // first.go
  // ---------------------------------------------------------------------------

  /** `First`: the first byte of a non-empty string, converted to a string the way Go's
      `string(b)` converts a byte (as a code point, so a byte from 0x80 up comes back
      UTF-8 encoded); the first byte of a non-empty `[]byte` as a byte; the first element
      of a non-empty `[]any`. Everything else, the empty values included, is an error. */
  function First(value: Value, params: seq<Value>): (r: FilterOut)
    ensures r.Returned?
    ensures r.err.None? <==>
      (value.Str? && |value.s| > 0) || (value.Bytes? && |value.data| > 0) || (value.List? && |value.items| > 0)
    ensures r.err.Some? ==> r.value == Nil
  {
    match value
    case Str(s) => if |s| > 0 then Done(Str(EncodeRune(s[0]))) else Fail(Nil, "first function expected a non-empty string or bytes or slice")
    case Bytes(d) => if |d| > 0 then Done(Byte(d[0])) else Fail(Nil, "first function expected a non-empty string or bytes or slice")
    case List(items) => if |items| > 0 then Done(items[0]) else Fail(Nil, "first function expected a non-empty string or bytes or slice")
    case _ => Fail(Nil, "first function expected a non-empty string or bytes or slice")
  }

  /** For ASCII text, `First` is a one-byte prefix, and shortening to at least one byte
      first does not change it. */
  lemma {:induction false} FirstOfShortened(s: string, n: int)
    requires |s| > 0 && s[0] as int < 0x80 && 1 <= n <= MaxInt64
    ensures First(Str(s), []) == Done(Str(s[..1]))
    ensures Shorten(Str(s), [Int(n)]).Returned?
    ensures First(Shorten(Str(s), [Int(n)]).value, []) == First(Str(s), [])
  {
    ItoaAtoi(n);
    assert s[..1] == [s[0]];
    var t := Shorten(Str(s), [Int(n)]).value.s;
    assert t[0] == s[0];
  }

  // ---------------------------------------------------------------------------
  // lines.go
  // ---------------------------------------------------------------------------

  /** `Lines`: nil gives nil without error; a string gives its `"\n"`-separated pieces as a
      `[]string`; a `[]byte` gives its pieces as a `[][]byte`; anything else is an error. */
  function Lines(value: Value, params: seq<Value>): (r: FilterOut)
    ensures r.Returned?
    ensures r.err.None? <==> value.Nil? || value.Str? || value.Bytes?
    ensures value.Nil? ==> r.value == Nil
    ensures value.Str? ==> r.value.StrList? && Strings.Join(r.value.strs, "\n") == value.s
    ensures value.Bytes? ==> r.value.BytesList? && Strings.Join(r.value.chunks, "\n") == value.data
  {
    match value
    case Nil => Done(Nil)
    case Str(s) =>
      SplitJoin(s, "\n");
      Done(StrList(Split(s, "\n")))
    case Bytes(d) =>
      SplitJoin(d, "\n");
      Done(BytesList(Split(d, "\n")))
    case _ => Fail(Nil, "lines function expected string or bytes")
  }

  /** A string has one more line than it has newlines, and no line holds a newline. */
  lemma {:induction false} LinesCount(s: string)
    ensures |Lines(Str(s), []).value.strs| == Count(s, "\n") + 1
    ensures forall k :: 0 <= k < |Lines(Str(s), []).value.strs| ==> '\n' !in Lines(Str(s), []).value.strs[k]
  {
    SplitCount(s, "\n");
    SplitPiecesFree(s, "\n");
    var ps := Split(s, "\n");
    forall k, j | 0 <= k < |ps| && 0 <= j < |ps[k]| ensures ps[k][j] != '\n' {
      assert !OccursAt(ps[k], "\n", j);
      assert ps[k][j..j + 1][0] == ps[k][j];
    }
  }

  // ---------------------------------------------------------------------------
  // length.go
  // ---------------------------------------------------------------------------

  /** `Length`: the byte count of a string or a `[]byte`, printed in decimal as a string.
      Lists and every other type are errors; the arguments are ignored. */
  function Length(value: Value, params: seq<Value>): (r: FilterOut)
    ensures r.Returned?
    ensures r.err.None? <==> value.Str? || value.Bytes?
    ensures r.err.None? ==> r.value.Str?
    ensures value.Str? && InInt64(|value.s|) ==> Atoi(r.value.s) == Some(|value.s|)
    ensures value.Bytes? && InInt64(|value.data|) ==> Atoi(r.value.s) == Some(|value.data|)
    ensures r.err.Some? ==> r.value == Nil
  {
    match value
    case Str(s) =>
      ItoaReadsBack(|s|);
      Done(Str(Itoa(|s|)))
    case Bytes(d) =>
      ItoaReadsBack(|d|);
      Done(Str(Itoa(|d|)))
    case _ => Fail(Nil, "length function expected string or bytes")
  }

  // ---------------------------------------------------------------------------
  // trim.go and wrap.go
  // ---------------------------------------------------------------------------

  /** `Trim`: white space is removed from both ends of a string or a `[]byte`; every other
      value is returned as it is. There is never an error and the arguments are ignored. */
  function Trim(value: Value, params: seq<Value>): (r: FilterOut)
    ensures r.Returned? && r.err.None?
    ensures value.Str? ==> r.value.Str? && SpaceTrimmed(value.s, r.value.s)
    ensures value.Bytes? ==> r.value.Bytes? && SpaceTrimmed(value.data, r.value.data)
    ensures !value.Str? && !value.Bytes? ==> r.value == value
  {
    match value
    case Str(s) => Done(Str(TrimSpace(s)))
    case Bytes(d) => Done(Bytes(TrimSpace(d)))
    case _ => Done(value)
  }

  /** Trimming twice is trimming once, whatever the arguments of either call. */
  lemma {:induction false} TrimIdempotent(value: Value, p: seq<Value>, q: seq<Value>)
    ensures Trim(Trim(value, p).value, q) == Trim(value, p)
  {
    match value
    case Str(s) => TrimSpaceIdempotent(s);
    case Bytes(d) => TrimSpaceIdempotent(d);
    case _ =>
  }

  /** `Wrap` of wrap.go: despite its name, the same white-space trim as `Trim`. */
  function Wrap(value: Value, params: seq<Value>): (r: FilterOut)
    ensures r.Returned? && r.err.None?
    ensures value.Str? ==> r.value.Str? && SpaceTrimmed(value.s, r.value.s)
    ensures value.Bytes? ==> r.value.Bytes? && SpaceTrimmed(value.data, r.value.data)
    ensures !value.Str? && !value.Bytes? ==> r.value == value
  {
    match value
    case Str(v) => Done(Str(TrimSpace(v)))
    case Bytes(v) => Done(Bytes(TrimSpace(v)))
    case _ => Done(value)
  }

  /** `Wrap` and `Trim` agree on every input, so `Wrap` is idempotent too. */
  lemma {:induction false} WrapIsTrim(value: Value, p: seq<Value>, q: seq<Value>)
    ensures Wrap(value, p) == Trim(value, q)
    ensures Wrap(Wrap(value, p).value, q) == Wrap(value, p)
  {
    TrimIdempotent(value, p, q);
  }

  // ---------------------------------------------------------------------------
  // default.go
  // ---------------------------------------------------------------------------

  /** `Default`: at least one argument is required; nil and the empty string are replaced
      by the first argument, and every other value (0, false, empty lists included) is kept. */
  function Default(value: Value, params: seq<Value>): (r: FilterOut)
    ensures r.Returned?
    ensures r.err.Some? <==> |params| == 0
    ensures |params| > 0 && (value.Nil? || value == Str("")) ==> r.value == params[0]
    ensures |params| > 0 && !value.Nil? && value != Str("") ==> r.value == value
  {
    if |params| == 0 then Fail(Nil, "default requires at least one parameter")
    else if value.Nil? then Done(params[0])
    else if value == Str("") then Done(params[0])
    else Done(value)
  }

  /** With the same arguments, applying `Default` again changes nothing. */
  lemma {:induction false} DefaultIdempotent(value: Value, params: seq<Value>)
    requires |params| > 0
    ensures Default(Default(value, params).value, params) == Default(value, params)
  {
  }

  // ---------------------------------------------------------------------------
  // join.go
  // ---------------------------------------------------------------------------

  /** `Join`: a `[]string` joined with newlines. Every other type, `[]any` included, is an
      error; the arguments are ignored. */
  function Join(value: Value, params: seq<Value>): (r: FilterOut)
    ensures r.Returned?
    ensures r.err.None? <==> value.StrList?
    ensures value.StrList? && |value.strs| == 0 ==> r.value == Str("")
    ensures value.StrList? && |value.strs| == 1 ==> r.value == Str(value.strs[0])
    ensures value.StrList? ==> r.value == Str(Strings.Join(value.strs, "\n"))
    ensures value.StrList? && |value.strs| >= 1 && (forall k :: 0 <= k < |value.strs| ==> '\n' !in value.strs[k]) ==>
      Split(r.value.s, "\n") == value.strs
    ensures r.err.Some? ==> r.value == Nil
  {
    match value
    case StrList(strs) =>
      JoinedLines(strs);
      Done(Str(Strings.Join(strs, "\n")))
    case _ => Fail(Nil, "join function expected array of strings")
  }

  /** Lines without a newline, joined with newlines, split back into themselves. */
  lemma {:induction false} JoinedLines(strs: seq<string>)
    ensures |strs| >= 1 && (forall k :: 0 <= k < |strs| ==> '\n' !in strs[k]) ==>
      Split(Strings.Join(strs, "\n"), "\n") == strs
  {
    if |strs| >= 1 && (forall k :: 0 <= k < |strs| ==> '\n' !in strs[k]) {
      JoinSplit(strs, '\n');
    }
  }

  /** Joining the lines of a string gives the string back. */
  lemma {:induction false} JoinLines(s: string, p: seq<Value>, q: seq<Value>)
    ensures Join(Lines(Str(s), p).value, q) == Done(Str(s))
  {
  }

  // ---------------------------------------------------------------------------
  // concat.go
  // ---------------------------------------------------------------------------

  /** The arguments as strings, if every one of them is a string. */
  function StringParams(params: seq<Value>): (r: Option<seq<string>>)
    ensures r.Some? <==> forall k :: 0 <= k < |params| ==> params[k].Str?
    ensures r.Some? ==> |r.value| == |params| && forall k :: 0 <= k < |params| ==> r.value[k] == params[k].s
  {
    if forall k :: 0 <= k < |params| ==> params[k].Str? then
      Some(seq(|params|, k requires 0 <= k < |params| => params[k].s))
    else None
  }

  /** `Concat`: a string followed by every argument, which must all be strings. A
      non-string value or argument is an error. */
  function Concat(value: Value, params: seq<Value>): (r: FilterOut)
    ensures r.Returned?
    ensures r.err.None? <==> value.Str? && StringParams(params).Some?
    ensures r.err.None? ==> r.value == Str(value.s + Strings.Join(StringParams(params).value, ""))
    ensures r.err.Some? ==> r.value == Nil
  {
    match value
    case Str(s) =>
      (match StringParams(params)
       case None => Fail(Nil, "concat function expected string params")
       case Some(ps) =>
         JoinEmptyAppend([s], ps);
         Done(Str(Strings.Join([s] + ps, ""))))
    case _ => Fail(Nil, "concat function expected string")
  }

  lemma {:induction false} StringParamsAppend(p: seq<Value>, q: seq<Value>)
    requires StringParams(p).Some? && StringParams(q).Some?
    ensures StringParams(p + q) == Some(StringParams(p).value + StringParams(q).value)
  {
    var pq := p + q;
    forall k | 0 <= k < |pq| ensures pq[k].Str? {
      if k < |p| { assert pq[k] == p[k]; } else { assert pq[k] == q[k - |p|]; }
    }
    var r := StringParams(pq).value;
    var t := StringParams(p).value + StringParams(q).value;
    assert |r| == |t|;
    forall k | 0 <= k < |r| ensures r[k] == t[k] {
      if k < |p| { assert pq[k] == p[k]; } else { assert pq[k] == q[k - |p|]; }
    }
    assert r == t;
  }

  /** Concatenating in two steps is concatenating the arguments together; with no
      arguments the string comes back unchanged. */
  lemma {:induction false} ConcatAssociative(s: string, p: seq<Value>, q: seq<Value>)
    requires StringParams(p).Some? && StringParams(q).Some?
    ensures Concat(Str(s), []) == Done(Str(s))
    ensures Concat(Concat(Str(s), p).value, q) == Concat(Str(s), p + q)
  {
    var ps := StringParams(p).value;
    var qs := StringParams(q).value;
    StringParamsAppend(p, q);
    JoinEmptyAppend(ps, qs);
    JoinEmptyAppend([s], ps);
    JoinEmptyAppend([s], ps + qs);
    assert s + Strings.Join(ps, "") + Strings.Join(qs, "") == s + Strings.Join(ps + qs, "");
  }

  // ---------------------------------------------------------------------------
  // shorten.go (the same code as `shorten` in functions.go and as text/shorten.go)
  // ---------------------------------------------------------------------------

  /** `strconv.Atoi(fmt.Sprint(arg))`: the length a `shorten` argument denotes. Strings
      are parsed, ints and bytes print as their decimal value, a float counts when it
      prints as a whole number; nil, booleans, lists, maps and other types never print
      as a decimal integer. */
  function LengthArg(arg: Value): (r: Option<int>)
    ensures arg.Str? ==> r == Atoi(arg.s)
    ensures arg.Int? && InInt64(arg.n) ==> r == Some(arg.n)
    ensures arg.Byte? ==> r == Some(arg.octet as int)
    ensures !arg.Str? && !arg.Int? && !arg.Byte? && !arg.Float? ==> r.None?
  {
    match arg
    case Str(s) => Atoi(s)
    case Int(n) =>
      ItoaReadsBack(n);
      Atoi(Itoa(n))
    case Byte(b) => Some(b as int)
    case Float(lit) => Floats.PrintedInt(lit)
    case _ => None
  }

  function Min(a: int, b: int): int {
    if a <= b then a else b
  }

  /** `Shorten`: the string cut to its first n bytes, n being the one argument. A
      non-string value, an argument count other than one and an argument that is not a
      decimal integer are errors returned with the value ""; a negative n makes the slice
      expression `str[:n]` panic. */
  function Shorten(value: Value, args: seq<Value>): (r: FilterOut)
    ensures !value.Str? || |args| != 1 || LengthArg(args[0]).None? ==>
      r.Returned? && r.err.Some? && r.value == Str("")
    ensures value.Str? && |args| == 1 && LengthArg(args[0]).Some? ==>
      var n := LengthArg(args[0]).value;
      && (r.Panicked? <==> n < 0)
      && (n >= 0 ==> r == Done(Str(value.s[..Min(|value.s|, n)])))
  {
    match value
    case Str(str) =>
      if |args| != 1 then Fail(Str(""), "shorten requires 1 numeric argument")
      else
        (match LengthArg(args[0])
         case None => Fail(Str(""), "shorten requires a numeric argument")
         case Some(n) =>
           if |str| > n then
             if n < 0 then Panicked("slice bounds out of range") else Done(Str(str[..n]))
           else Done(Str(str)))
    case _ => Fail(Str(""), "shorten requires a text argument")
  }

  /** Shortening to m and then to n is shortening to the smaller of the two. */
  lemma {:induction false} ShortenTwice(s: string, m: int, n: int)
    requires 0 <= m <= MaxInt64 && 0 <= n <= MaxInt64
    ensures Shorten(Shorten(Str(s), [Int(m)]).value, [Int(n)]) == Shorten(Str(s), [Int(Min(m, n))])
    ensures Shorten(Str(s), [Int(m)]).value.s == s[..Min(|s|, m)]
  {
    ItoaAtoi(m);
    ItoaAtoi(n);
    ItoaAtoi(Min(m, n));
    var t := s[..Min(|s|, m)];
    assert t[..Min(|t|, n)] == s[..Min(|s|, Min(m, n))];
  }

  // ---------------------------------------------------------------------------
  // utils.go
  // ---------------------------------------------------------------------------

  /** `isParam`: an argument at `index` that is the string `name`; false when there are
      not enough arguments. Callers pass index 0, so negative indexes are not modelled. */
  function IsParam(params: seq<Value>, index: nat, name: string): (r: bool)
    ensures index >= |params| ==> !r
    ensures r <==> index < |params| && params[index].Str? && params[index].s == name
  {
    if |params| <= index then false else params[index] == Str(name)
  }

  /** `ConditionIsTrue`: nil is false; a bool is itself; a string is true unless it is
      empty or `"false"`; int and uint8 are true when positive, and so is a float; maps,
      lists and every other type are false. */
  predicate ConditionIsTrue(condition: Value) {
    match condition
    case Nil => false
    case Bool(b) => b == true
    case Str(v) => if v == "false" then false else |v| > 0
    case Int(n) => n > 0
    case Byte(b) => b as int > 0
    case Float(lit) => Floats.Positive(lit)
    case _ => false
  }

  /** A condition is usually rendered to text before it is evaluated: rendering a bool keeps
      its truth, rendering a positive int keeps it true, and a string is false exactly
      when it is "" or "false". */
  lemma {:induction false} RenderedConditions(b: bool, n: int, v: string)
    ensures ConditionIsTrue(Str(BoolText(b))) == ConditionIsTrue(Bool(b))
    ensures ConditionIsTrue(Int(n)) ==> ConditionIsTrue(Str(Itoa(n)))
    ensures !ConditionIsTrue(Str(v)) <==> v == "" || v == "false"
  {
    if n > 0 {
      var t := Itoa(n);
      assert t == Digits(n);
      assert IsDigit(t[0]);
    }
  }

  // ---------------------------------------------------------------------------
  // definition.go
  // ---------------------------------------------------------------------------

  /** The value and parameter types a modifier may declare. */
  datatype Type = TypeAny | TypeString | TypeBytes | TypeInt | TypeFloat | TypeBool | TypeArray | TypeMap {
    /** The string each constant is declared with. */
    function Name(): string {
      match this
      case TypeAny => "any"
      case TypeString => "string"
      case TypeBytes => "bytes"
      case TypeInt => "int"
      case TypeFloat => "float"
      case TypeBool => "bool"
      case TypeArray => "array"
      case TypeMap => "map"
    }
  }

  /** The sentinel errors of definition.go. */
  datatype DefinitionError = InvalidValueType | InvalidParamType | MissingParam | InvalidParamValue

  /** `ModifierError`; its `Error()` is the localized message and nothing else. */
  datatype ModifierError = ModifierError(value: Value, valueType: Type, err: DefinitionError, errLocalized: string) {
    function Error(): string { errLocalized }
  }

  /** `ModifierDefinition` with the fields `Validate` reads: the accepted value types. */
  datatype ModifierDefinition = ModifierDefinition(description: string, acceptedValue: seq<Type>)

  /** `detectType`. Go types without a variant of their own (int32, int64, float32) are
      `Other` values named by their Go type. */
  function DetectType(v: Value): (t: Type)
    ensures t == TypeAny <==> !(v.Str? || v.Bytes? || v.Int? || v.Float? || v.Bool? || v.List? || v.Map?)
                              && !(v.Other? && v.typeName in {"int32", "int64", "float32"})
    ensures v.Str? ==> t == TypeString
    ensures v.Bytes? ==> t == TypeBytes
    ensures v.Int? || (v.Other? && v.typeName in {"int32", "int64"}) ==> t == TypeInt
    ensures v.Float? || (v.Other? && v.typeName == "float32") ==> t == TypeFloat
    ensures v.Bool? ==> t == TypeBool
    ensures v.List? ==> t == TypeArray
    ensures v.Map? ==> t == TypeMap
  {
    match v
    case Str(_) => TypeString
    case Bytes(_) => TypeBytes
    case Int(_) => TypeInt
    case Float(_) => TypeFloat
    case Bool(_) => TypeBool
    case List(_) => TypeArray
    case Map(_) => TypeMap
    case Other(name) =>
      if name == "int32" || name == "int64" then TypeInt
      else if name == "float32" then TypeFloat
      else TypeAny
    case _ => TypeAny
  }

  /** `isTypeAllowed`: some listed type is `any` or the value's detected type. */
  function IsTypeAllowed(types: seq<Type>, value: Value): (r: bool)
    ensures r <==> exists i :: 0 <= i < |types| && (types[i] == TypeAny || types[i] == DetectType(value))
  {
    if |types| == 0 then false
    else if types[0] == TypeAny || types[0] == DetectType(value) then true
    else
      assert forall i :: 1 <= i < |types| ==> types[i] == types[1..][i - 1];
      IsTypeAllowed(types[1..], value)
  }

  /** `Validate`: nil when the value's type is allowed, otherwise an invalid-value-type
      error carrying the detected type and an empty message. The arguments are not read. */
  function Validate(md: ModifierDefinition, value: Value, params: seq<Value>): (r: Option<ModifierError>)
    ensures r.None? <==> exists i :: 0 <= i < |md.acceptedValue| && md.acceptedValue[i] in {TypeAny, DetectType(value)}
    ensures r.Some? ==> r.value.err == InvalidValueType && r.value.valueType == DetectType(value) && r.value.Error() == ""
  {
    if !IsTypeAllowed(md.acceptedValue, value) then
      Some(ModifierError(value, DetectType(value), InvalidValueType, ""))
    else None
  }

  /** `isParamType`. */
  predicate IsParamType(t: Type, p: Value) {
    DetectType(p) == t
  }

  /** Declaring a value's own type, or `any`, admits it; declaring nothing admits nothing;
      and the arguments never change the verdict. */
  lemma {:induction false} ValidateAdmits(md: ModifierDefinition, value: Value, p: seq<Value>, q: seq<Value>)
    ensures Validate(ModifierDefinition(md.description, [DetectType(value)]), value, p).None?
    ensures Validate(ModifierDefinition(md.description, md.acceptedValue + [TypeAny]), value, p).None?
    ensures Validate(ModifierDefinition(md.description, []), value, p).Some?
    ensures Validate(md, value, p) == Validate(md, value, q)
    ensures Validate(md, value, p).None? <==> exists t :: t in md.acceptedValue && (t == TypeAny || IsParamType(t, value))
  {
    var withAny := md.acceptedValue + [TypeAny];
    assert withAny[|withAny| - 1] == TypeAny;
    ValidateMembership(md, value, p);
  }

  lemma {:induction false} ValidateMembership(md: ModifierDefinition, value: Value, p: seq<Value>)
    ensures Validate(md, value, p).None? <==> exists t :: t in md.acceptedValue && (t == TypeAny || IsParamType(t, value))
  {
    var ts := md.acceptedValue;
    if exists t :: t in ts && (t == TypeAny || IsParamType(t, value)) {
      var t :| t in ts && (t == TypeAny || IsParamType(t, value));
      var i :| 0 <= i < |ts| && ts[i] == t;
      assert ts[i] in {TypeAny, DetectType(value)};
    } else {
      forall i | 0 <= i < |ts| ensures ts[i] !in {TypeAny, DetectType(value)} {
        assert ts[i] in ts;
      }
    }
  }
}
