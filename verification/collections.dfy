/**
 The filters of package functions/collections: `Key` (a dotted map path or a list
 index), `First`, `Wrap`, `Find` and `Map` over lists of maps.

 The Go code inspects values with reflection. Over the closed `Value` type, the Map kind
 is `Map` and `MapOfMaps`, the Slice kind is `Bytes`, `List`, `StrList`, `BytesList` and
 `MapList`, and the String kind is `Str`. All maps here have string keys.
 */
module Collections {
  import opened Wrappers
  import opened Strings
  import opened Values
  import Floats
  import Functions

  // ---------------------------------------------------------------------------
  // Reflection over the closed value type
  // ---------------------------------------------------------------------------

  /** `rv.Len()` and `rv.Index(i).Interface()` of a value of Slice kind, as a sequence;
      None for every other kind. */
  function SliceElements(v: Value): (r: Option<seq<Value>>)
    ensures r.Some? <==> v.Bytes? || v.List? || v.StrList? || v.BytesList? || v.MapList?
    ensures v.List? ==> r == Some(v.items)
    ensures v.Bytes? ==> r.Some? && |r.value| == |v.data| && forall i :: 0 <= i < |v.data| ==> r.value[i] == Byte(v.data[i])
    ensures v.StrList? ==> r.Some? && |r.value| == |v.strs| && forall i :: 0 <= i < |v.strs| ==> r.value[i] == Str(v.strs[i])
    ensures v.BytesList? ==> r.Some? && |r.value| == |v.chunks| && forall i :: 0 <= i < |v.chunks| ==> r.value[i] == Bytes(v.chunks[i])
    ensures v.MapList? ==> r.Some? && |r.value| == |v.maps| && forall i :: 0 <= i < |v.maps| ==> r.value[i] == Map(v.maps[i])
  {
    match v
    case Bytes(d) => Some(seq(|d|, i requires 0 <= i < |d| => Byte(d[i])))
    case List(items) => Some(items)
    case StrList(strs) => Some(seq(|strs|, i requires 0 <= i < |strs| => Str(strs[i])))
    case BytesList(chunks) => Some(seq(|chunks|, i requires 0 <= i < |chunks| => Bytes(chunks[i])))
    case MapList(maps) => Some(seq(|maps|, i requires 0 <= i < |maps| => Map(maps[i])))
    case _ => None
  }

  predicate IsMapKind(v: Value) {
    v.Map? || v.MapOfMaps?
  }

  // ---------------------------------------------------------------------------
  // key.go
  // ---------------------------------------------------------------------------

  /** `Key`: the lookup of `key`, with every failure turned into nil and no error. */
  function Key(value: Value, params: seq<Value>): (r: FilterOut)
    ensures r.Returned? && r.err.None?
    ensures LookUp(value, params).Ok? ==> r.value == LookUp(value, params).value
    ensures LookUp(value, params).Err? ==> r.value == Nil
  {
    match LookUp(value, params)
    case Ok(v) => Done(v)
    case Err(_) => Done(Nil)
  }

  /** `key`: arguments are required, then a value; a map takes a dotted path, a slice an
      index, and every other kind is an error. */
  function LookUp(value: Value, params: seq<Value>): (r: Result<Value, string>)
    ensures |params| == 0 || value.Nil? ==> r.Err?
    ensures !IsMapKind(value) && SliceElements(value).None? ==> r.Err?
  {
    if |params| == 0 then Err("key function requires a key parameter")
    else if value.Nil? then Err("key function: value is nil")
    else if IsMapKind(value) then HandleMap(value, params)
    else match SliceElements(value)
      case Some(items) => HandleSlice(items, params)
      case None => Err("key function expected map or slice")
  }

  /** `keyParts`: the first argument must be a string; it is split on `.`. */
  function KeyParts(params: seq<Value>): (r: Result<seq<string>, string>)
    requires |params| > 0
    ensures r.Ok? <==> params[0].Str?
    ensures r.Ok? ==> |r.value| >= 1 && Join(r.value, ".") == params[0].s
  {
    if params[0].Str? then
      SplitJoin(params[0].s, ".");
      Ok(Split(params[0].s, "."))
    else Err("key function requires a string key parameter")
  }

  /** `handleMap`, as it is meant to work: each path segment is looked up in the current
      map, and every segment but the last must lead to a map again. */
  function HandleMap(value: Value, params: seq<Value>): (r: Result<Value, string>)
    requires |params| > 0
    ensures !params[0].Str? ==> r.Err?
  {
    match KeyParts(params)
    case Err(e) => Err(e)
    case Ok(parts) => Descend(value, parts)
  }

  /** The path loop. A `map[string]map[string]any` yields a `map[string]any` at its first
      level. */
  function Descend(current: Value, parts: seq<string>): (r: Result<Value, string>)
    requires |parts| >= 1
    ensures !IsMapKind(current) ==> r.Err?
    decreases |parts|
  {
    var part := parts[0];
    match current
    case Map(m) =>
      if part !in m then Err("key function: path segment not found in map")
      else if |parts| == 1 then Ok(m[part])
      else Descend(m[part], parts[1..])
    case MapOfMaps(g) =>
      if part !in g then Err("key function: path segment not found in map")
      else if |parts| == 1 then Ok(Map(g[part]))
      else Descend(Map(g[part]), parts[1..])
    case _ => Err("key function: path segment is not a map; cannot continue nested lookup")
  }

  /** On nested `map[string]any` values the path lookup is the one of package functions:
      every path that one resolves is resolved here to the same value. */
  lemma {:induction false} DescendAgrees(m: map<string, Value>, parts: seq<string>)
    requires |parts| >= 1
    ensures Functions.LookupPath(m, parts).err.None? ==> Descend(Map(m), parts) == Ok(Functions.LookupPath(m, parts).value)
    decreases |parts|
  {
    var p := parts[0];
    if p in m && |parts| > 1 && m[p].Map? {
      assert Descend(Map(m), parts) == Descend(m[p], parts[1..]);
      assert Functions.LookupPath(m, parts) == Functions.LookupPath(m[p].entries, parts[1..]);
      DescendAgrees(m[p].entries, parts[1..]);
    }
  }

  /** `handleSlice`: the first argument, converted to an int, indexes the slice. */
  function HandleSlice(items: seq<Value>, params: seq<Value>): (r: Result<Value, string>)
    ensures r.Ok? <==> |params| > 0 && ConvertToInt(params[0]).Ok? && 0 <= ConvertToInt(params[0]).value < |items|
    ensures r.Ok? ==> r.value == items[ConvertToInt(params[0]).value]
  {
    if |params| == 0 then Err("key function: slice access requires an index parameter")
    else match ConvertToInt(params[0])
      case Err(e) => Err(e)
      case Ok(index) =>
        if index < 0 || index >= |items| then Err("key function: index out of range")
        else Ok(items[index])
  }

  /** `convertToInt`: an int is itself, a byte its value, a float is truncated toward
      zero, and a string must be a decimal integer. */
  function ConvertToInt(v: Value): (r: Result<int, string>)
    ensures r.Ok? <==> v.Int? || v.Byte? || v.Float? || (v.Str? && Atoi(v.s).Some?)
    ensures r.Ok? && (v.Byte? || v.Float? || v.Str?) ==> InInt64(r.value)
    ensures v.Str? && r.Ok? ==> Atoi(v.s) == Some(r.value)
  {
    match v
    case Int(n) => Ok(n)
    case Byte(b) => Ok(b as int)
    case Float(lit) => Ok(Floats.Truncate(lit))
    case Str(s) =>
      (match Atoi(s)
       case Some(n) => Ok(n)
       case None => Err("invalid syntax"))
    case _ => Err("cannot convert to int")
  }

  /** An index may be given as an int or as its decimal text. */
  lemma {:induction false} IndexAsText(items: seq<Value>, i: int)
    requires InInt64(i)
    ensures HandleSlice(items, [Str(Itoa(i))]) == HandleSlice(items, [Int(i)])
  {
    ItoaAtoi(i);
  }

  // ---------------------------------------------------------------------------
  // The path loop as written
  // ---------------------------------------------------------------------------

  /** What the loop variable `current` of `handleMap` holds: the map given to `key`, or a
      value `MapIndex` returned. `MapIndex` on a `map[string]any` returns a value of
      Interface kind, whatever the entry holds; on a `map[string]map[string]any` it returns
      a value of Map kind. */
  datatype Reflected =
    | MapAny(m: map<string, Value>)
    | MapOfMapAny(g: map<string, map<string, Value>>)
    | Interface(v: Value)

  function Reflect(value: Value): Reflected
    requires IsMapKind(value)
  {
    if value.Map? then MapAny(value.entries) else MapOfMapAny(value.groups)
  }

  /** The loop as written: it tests the kind of `current` itself, so an entry of a
      `map[string]any` is never descended into, even when it holds a map. */
  function DescendAsWritten(current: Reflected, parts: seq<string>): (r: Result<Value, string>)
    requires |parts| >= 1
    ensures current.Interface? ==> r.Err?
    decreases |parts|
  {
    var part := parts[0];
    match current
    case Interface(_) => Err("key function: path segment is not a map; cannot continue nested lookup")
    case MapAny(m) =>
      if part !in m then Err("key function: path segment not found in map")
      else if |parts| == 1 then Ok(m[part])
      else DescendAsWritten(Interface(m[part]), parts[1..])
    case MapOfMapAny(g) =>
      if part !in g then Err("key function: path segment not found in map")
      else if |parts| == 1 then Ok(Map(g[part]))
      else DescendAsWritten(MapAny(g[part]), parts[1..])
  }

  /** As written, a path of two or more segments into a `map[string]any` always fails,
      while a single segment is looked up as intended. */
  lemma {:induction false} AsWrittenNestedFails(m: map<string, Value>, parts: seq<string>)
    requires |parts| >= 1
    ensures |parts| >= 2 ==> DescendAsWritten(MapAny(m), parts).Err?
    ensures |parts| == 1 ==> DescendAsWritten(MapAny(m), parts) == Descend(Map(m), parts)
  {
  }

  lemma {:induction false} SplitPath()
    ensures Split("a.b", ".") == ["a", "b"]
  {
    SplitFirst("a", '.', "b");
    SplitNoSep("b", '.');
    assert "a" + ['.'] + "b" == "a.b";
  }

  /** The input that shows it: `{"a": {"b": 1}}` with the path `a.b`. The loop as written
      fails; the intended lookup returns 1. */
  lemma {:induction false} NestedLookupCounterexample()
    ensures var m := map["a" := Map(map["b" := Int(1)])];
      && DescendAsWritten(MapAny(m), ["a", "b"]).Err?
      && Descend(Map(m), ["a", "b"]) == Ok(Int(1))
      && LookUp(Map(m), [Str("a.b")]) == Ok(Int(1))
  {
    var m := map["a" := Map(map["b" := Int(1)])];
    AsWrittenNestedFails(m, ["a", "b"]);
    DescendAB(m);
    LookUpAB(m);
  }

  lemma {:induction false} DescendAB(m: map<string, Value>)
    requires m == map["a" := Map(map["b" := Int(1)])]
    ensures Descend(Map(m), ["a", "b"]) == Ok(Int(1))
  {
    var parts := ["a", "b"];
    assert parts[1..] == ["b"];
    assert Descend(Map(m), parts) == Descend(Map(map["b" := Int(1)]), ["b"]);
  }

  lemma {:induction false} LookUpAB(m: map<string, Value>)
    requires m == map["a" := Map(map["b" := Int(1)])]
    ensures LookUp(Map(m), [Str("a.b")]) == Ok(Int(1))
  {
    SplitPath();
    assert KeyParts([Str("a.b")]) == Ok(["a", "b"]);
    DescendAB(m);
  }

  // ---------------------------------------------------------------------------
  // first.go
  // ---------------------------------------------------------------------------

  /** `First`: the first byte of a non-empty string, as `string(b)` converts it, or element
      0 of a non-empty slice of any element type. Params are ignored, and the accepted
      types the definition lists are not checked. */
  function First(value: Value, params: seq<Value>): (r: FilterOut)
    ensures r.Returned?
    ensures r.err.None? <==>
      (value.Str? && |value.s| > 0) || (SliceElements(value).Some? && |SliceElements(value).value| > 0)
    ensures r.err.Some? ==> r.value == Nil
    ensures value.Str? && |value.s| > 0 ==> r.value == Str(EncodeRune(value.s[0]))
  {
    if value.Str? then
      if |value.s| > 0 then Done(Str(EncodeRune(value.s[0]))) else Fail(Nil, "first function expected a non-empty string, slice, or array")
    else match SliceElements(value)
      case Some(items) =>
        if |items| > 0 then Done(items[0]) else Fail(Nil, "first function expected a non-empty string, slice, or array")
      case None => Fail(Nil, "first function expected a non-empty string, slice, or array")
  }

  /** This `First` does everything the one of package functions does, and also takes the
      first element of a `[]string`, a `[][]byte` and a `[]map[string]any`. */
  lemma {:induction false} FirstExtendsFunctions(value: Value, p: seq<Value>, q: seq<Value>)
    ensures Functions.First(value, p).err.None? ==> First(value, q) == Functions.First(value, p)
    ensures value.StrList? && |value.strs| > 0 ==> First(value, q) == Done(Str(value.strs[0]))
  {
    if value.Bytes? {
      FirstOfBytes(value.data, q);
    } else if value.StrList? {
      FirstOfStrList(value.strs, q);
    }
  }

  lemma {:induction false} FirstOfBytes(d: string, q: seq<Value>)
    ensures |d| > 0 ==> First(Bytes(d), q) == Done(Byte(d[0]))
  {
    if |d| > 0 {
      assert SliceElements(Bytes(d)).value[0] == Byte(d[0]);
    }
  }

  lemma {:induction false} FirstOfStrList(strs: seq<string>, q: seq<Value>)
    ensures |strs| > 0 ==> First(StrList(strs), q) == Done(Str(strs[0]))
  {
    if |strs| > 0 {
      assert SliceElements(StrList(strs)).value[0] == Str(strs[0]);
    }
  }

  /** On a non-empty slice, `First` is the lookup of index 0. */
  lemma {:induction false} FirstIsIndexZero(value: Value, p: seq<Value>)
    requires SliceElements(value).Some? && |SliceElements(value).value| > 0
    ensures First(value, p) == Key(value, [Int(0)])
  {
  }

  // ---------------------------------------------------------------------------
  // wrap.go
  // ---------------------------------------------------------------------------

  /** `Wrap`: a one-entry map holding the value under the first argument when that is a
      string, under "" otherwise; extra arguments are ignored. */
  function Wrap(value: Value, params: seq<Value>): (r: FilterOut)
    ensures r.Returned?
    ensures r.err.Some? <==> |params| == 0
    ensures r.err.Some? ==> r.value == Nil
    ensures r.err.None? ==> r.value.Map? && |r.value.entries| == 1
    ensures r.err.None? && params[0].Str? ==> r.value.entries == map[params[0].s := value]
    ensures r.err.None? && !params[0].Str? ==> r.value.entries == map["" := value]
  {
    if |params| == 0 then Fail(Nil, "wrap requires at least one parameter")
    else
      var key := if params[0].Str? then params[0].s else "";
      Done(Map(map[key := value]))
  }

  /** `Key` undoes `Wrap` for a key without a dot. */
  lemma {:induction false} KeyUnwraps(value: Value, k: string, extra: seq<Value>)
    requires '.' !in k
    ensures Key(Wrap(value, [Str(k)] + extra).value, [Str(k)]) == Done(value)
  {
    assert Wrap(value, [Str(k)] + extra).value == Map(map[k := value]);
    LookUpSingle(value, k);
  }

  lemma {:induction false} LookUpSingle(value: Value, k: string)
    requires '.' !in k
    ensures LookUp(Map(map[k := value]), [Str(k)]) == Ok(value)
  {
    SplitNoSep(k, '.');
    assert KeyParts([Str(k)]) == Ok([k]);
    assert Descend(Map(map[k := value]), [k]) == Ok(value);
  }

  // ---------------------------------------------------------------------------
  // find.go
  // ---------------------------------------------------------------------------

  /** A map matches when its entry at `key` is a string equal to the searched value;
      entries of any other type never match. */
  predicate Matches(m: map<string, Value>, key: string, wanted: Value) {
    key in m && m[key].Str? && m[key] == wanted
  }

  /** The position of the first matching map. */
  function FirstMatch(maps: seq<map<string, Value>>, key: string, wanted: Value): (r: Option<nat>)
    ensures r.Some? ==> r.value < |maps| && Matches(maps[r.value], key, wanted)
    ensures r.Some? ==> forall j :: 0 <= j < r.value ==> !Matches(maps[j], key, wanted)
    ensures r.None? ==> forall j :: 0 <= j < |maps| ==> !Matches(maps[j], key, wanted)
  {
    if |maps| == 0 then None
    else if Matches(maps[0], key, wanted) then Some(0)
    else match FirstMatch(maps[1..], key, wanted)
      case None => None
      case Some(i) => Some(i + 1)
  }

  /** `Find`: at least one argument; the searched value is argument 1 and the key argument
      0, both read through the package helpers. In a list of maps the first matching map
      is returned; a single map is returned when it matches. No match, and any other
      value, is an error. */
  function Find(helpers: Functions.Helpers, value: Value, params: seq<Value>): (r: FilterOut)
    ensures r.Returned? && (r.err.Some? ==> r.value == Nil)
    ensures |params| == 0 ==> r.err.Some?
    ensures !value.MapList? && !value.Map? ==> r.err.Some?
    ensures r.err.None? ==> |params| > 0 && helpers.paramAny(params, 1).Ok? && helpers.paramString(params, 0).Ok?
    ensures r.err.None? && value.MapList? ==>
      var key := helpers.paramString(params, 0).value;
      var wanted := helpers.paramAny(params, 1).value;
      exists i :: 0 <= i < |value.maps| && r.value == Map(value.maps[i]) && Matches(value.maps[i], key, wanted)
        && forall j :: 0 <= j < i ==> !Matches(value.maps[j], key, wanted)
    ensures r.err.None? && value.Map? ==>
      r.value == value && Matches(value.entries, helpers.paramString(params, 0).value, helpers.paramAny(params, 1).value)
    ensures |params| > 0 && helpers.paramAny(params, 1).Ok? && helpers.paramString(params, 0).Ok? ==>
      var key := helpers.paramString(params, 0).value;
      var wanted := helpers.paramAny(params, 1).value;
      (value.MapList? && (exists i :: 0 <= i < |value.maps| && Matches(value.maps[i], key, wanted)) ==> r.err.None?)
      && (value.Map? && Matches(value.entries, key, wanted) ==> r.err.None?)
  {
    if |params| == 0 then Fail(Nil, "in requires at least one parameter")
    else match helpers.paramAny(params, 1)
      case Err(e) => Fail(Nil, e)
      case Ok(wanted) =>
        match helpers.paramString(params, 0)
        case Err(e) => Fail(Nil, e)
        case Ok(key) =>
          match value
          case MapList(maps) =>
            (match FirstMatch(maps, key, wanted)
             case Some(i) => Done(Map(maps[i]))
             case None => Fail(Nil, "key with value not found in slice"))
          case Map(m) =>
            if Matches(m, key, wanted) then Done(value) else Fail(Nil, "key with value not found in map")
          case _ => Fail(Nil, "expected slice of maps")
  }

  // ---------------------------------------------------------------------------
  // map.go
  // ---------------------------------------------------------------------------

  /** The index the loop of `Map` builds over the maps: every map holding `key` is stored
      under its string value there, a later map replacing an earlier one; a non-string
      value at `key` is an error. */
  function GroupBy(maps: seq<map<string, Value>>, key: string): (r: Result<map<string, map<string, Value>>, string>)
    decreases |maps|
  {
    if |maps| == 0 then Ok(map[])
    else
      var last := maps[|maps| - 1];
      match GroupBy(maps[..|maps| - 1], key)
      case Err(e) => Err(e)
      case Ok(n) =>
        if key !in last then Ok(n)
        else if last[key].Str? then Ok(n[last[key].s := last])
        else Err("expected string value in map at key")
  }

  /** The maps carrying `s` at `key`. */
  predicate Carries(m: map<string, Value>, key: string, s: string) {
    key in m && m[key] == Str(s)
  }

  /** Map i is the last of the maps carrying `s` at `key`. */
  ghost predicate LastCarrier(maps: seq<map<string, Value>>, key: string, i: int, s: string) {
    0 <= i < |maps| && Carries(maps[i], key, s) && forall j :: i < j < |maps| ==> !Carries(maps[j], key, s)
  }

  /** What `GroupBy` computes: it fails exactly when some map has a non-string value at
      `key`; otherwise its keys are the string values found at `key`, and each is mapped
      to the last map carrying it. */
  lemma {:induction false} GroupBySpec(maps: seq<map<string, Value>>, key: string)
    ensures GroupBy(maps, key).Err? <==> exists i :: 0 <= i < |maps| && key in maps[i] && !maps[i][key].Str?
    ensures GroupBy(maps, key).Ok? ==>
      forall s :: s in GroupBy(maps, key).value <==> exists i :: 0 <= i < |maps| && Carries(maps[i], key, s)
    ensures GroupBy(maps, key).Ok? ==>
      forall s :: s in GroupBy(maps, key).value ==>
        exists i :: LastCarrier(maps, key, i, s) && GroupBy(maps, key).value[s] == maps[i]
  {
    GroupByErr(maps, key);
    if GroupBy(maps, key).Ok? {
      var n := GroupBy(maps, key).value;
      forall s ensures s in n <==> exists i :: 0 <= i < |maps| && Carries(maps[i], key, s) {
        GroupByKey(maps, key, s);
      }
      forall s | s in n ensures exists i :: LastCarrier(maps, key, i, s) && n[s] == maps[i] {
        GroupByValue(maps, key, s);
      }
    }
  }

  lemma {:induction false} GroupByErr(maps: seq<map<string, Value>>, key: string)
    ensures GroupBy(maps, key).Err? <==> exists i :: 0 <= i < |maps| && key in maps[i] && !maps[i][key].Str?
    decreases |maps|
  {
    if |maps| > 0 {
      var init := maps[..|maps| - 1];
      GroupByErr(init, key);
      assert forall i :: 0 <= i < |init| ==> init[i] == maps[i];
    }
  }

  lemma {:induction false} GroupByKey(maps: seq<map<string, Value>>, key: string, s: string)
    requires GroupBy(maps, key).Ok?
    ensures s in GroupBy(maps, key).value <==> exists i :: 0 <= i < |maps| && Carries(maps[i], key, s)
    decreases |maps|
  {
    if |maps| == 0 {
      return;
    }
    var init := maps[..|maps| - 1];
    var last := maps[|maps| - 1];
    var n := GroupBy(maps, key).value;
    var n0 := GroupBy(init, key).value;
    GroupByKey(init, key, s);
    if s in n {
      if Carries(last, key, s) {
        assert Carries(maps[|maps| - 1], key, s);
      } else {
        var i :| 0 <= i < |init| && Carries(init[i], key, s);
        assert maps[i] == init[i];
      }
    }
    if exists i :: 0 <= i < |maps| && Carries(maps[i], key, s) {
      var i :| 0 <= i < |maps| && Carries(maps[i], key, s);
      if i < |init| {
        assert maps[i] == init[i];
        assert s in n0;
      }
    }
  }

  lemma {:induction false} GroupByValue(maps: seq<map<string, Value>>, key: string, s: string)
    requires GroupBy(maps, key).Ok? && s in GroupBy(maps, key).value
    ensures exists i :: LastCarrier(maps, key, i, s) && GroupBy(maps, key).value[s] == maps[i]
    decreases |maps|
  {
    var init := maps[..|maps| - 1];
    var last := maps[|maps| - 1];
    var n := GroupBy(maps, key).value;
    if Carries(last, key, s) {
      assert LastCarrier(maps, key, |maps| - 1, s) && n[s] == maps[|maps| - 1];
    } else {
      var n0 := GroupBy(init, key).value;
      assert s in n0 && n[s] == n0[s];
      GroupByValue(init, key, s);
      var i :| LastCarrier(init, key, i, s) && n0[s] == init[i];
      assert maps[i] == init[i];
      assert LastCarrier(maps, key, i, s);
    }
  }

  /** `Map`: at least one argument, the key read as a string through the package
      helper, and a list of maps, which becomes the index of the maps by their string
      value at the key. */
  function MapByKey(helpers: Functions.Helpers, value: Value, params: seq<Value>): (r: FilterOut)
    ensures r.Returned? && (r.err.Some? ==> r.value == Nil)
    ensures |params| == 0 || !value.MapList? ==> r.err.Some?
    ensures r.err.None? ==>
      (r.value.MapOfMaps? && helpers.paramString(params, 0).Ok?
       && GroupBy(value.maps, helpers.paramString(params, 0).value) == Ok(r.value.groups))
  {
    if |params| == 0 then Fail(Nil, "in requires at least one parameter")
    else match helpers.paramString(params, 0)
      case Err(e) => Fail(Nil, e)
      case Ok(key) =>
        match value
        case MapList(maps) =>
          (match GroupBy(maps, key)
           case Ok(n) => Done(MapOfMaps(n))
           case Err(e) => Fail(Nil, e))
        case _ => Fail(Nil, "expected slice of maps")
  }

  /** When exactly one map carries a value at the key, `Map` indexes it under that value
      and `Find` finds it. */
  lemma {:induction false} MapAndFindAgree(helpers: Functions.Helpers, maps: seq<map<string, Value>>, key: string, s: string, i: nat)
    requires helpers.paramString([Str(key), Str(s)], 0) == Ok(key)
    requires helpers.paramAny([Str(key), Str(s)], 1) == Ok(Str(s))
    requires i < |maps| && Carries(maps[i], key, s)
    requires forall j :: 0 <= j < |maps| && j != i ==> !Carries(maps[j], key, s)
    ensures Find(helpers, MapList(maps), [Str(key), Str(s)]) == Done(Map(maps[i]))
    ensures MapByKey(helpers, MapList(maps), [Str(key), Str(s)]).err.None? ==>
      var n := MapByKey(helpers, MapList(maps), [Str(key), Str(s)]).value.groups;
      s in n && n[s] == maps[i]
  {
    GroupBySpec(maps, key);
    assert Matches(maps[i], key, Str(s));
    forall j | 0 <= j < |maps| && Matches(maps[j], key, Str(s))
      ensures j == i
    {
      assert Carries(maps[j], key, s);
    }
    assert FirstMatch(maps, key, Str(s)) == Some(i);
  }
}
