/**
 Batch variable resolution of sintax.go: each variable of a batch may be a template over
 the system variables and the other variables of the batch. Every template is rendered
 after the variables it names, in the order of a topological sort of the batch, so chained
 references resolve whatever order Go's map iteration yields the keys in.
 */
module Sintax {
  import opened Wrappers
  import opened Values
  import opened Token
  import opened Parser
  import opened Render
  import opened Topo
  import Strings

  // ---------------------------------------------------------------------------
  // The dependency graph of a batch
  // ---------------------------------------------------------------------------

  /** A token that reads a variable by name. */
  predicate IsReference(t: BaseToken) {
    t.Type() == Variable || t.Type() == FilteredVariable
  }

  /** The names of the reference tokens that are batch keys, in token order. */
  function TokenDeps(tokens: seq<BaseToken>, keys: set<string>): (r: seq<string>)
    ensures forall d :: d in r <==> d in keys && exists k :: 0 <= k < |tokens| && IsReference(tokens[k]) && tokens[k].Name() == d
  {
    if |tokens| == 0 then []
    else
      var rest := TokenDeps(tokens[1..], keys);
      assert forall k :: 1 <= k < |tokens| ==> tokens[1..][k - 1] == tokens[k];
      var t := tokens[0];
      if IsReference(t) && t.Name() in keys then [t.Name()] + rest else rest
  }

  /** The batch keys a value's template names; only strings are templates. */
  function Dependencies(v: Value, keys: set<string>): seq<string> {
    if v.Str? then
      match Parse(v.s)
      case Ok(tokens) => TokenDeps(tokens, keys)
      case Err(_) => []
    else []
  }

  /** The graph `topoSort` consumes: an edge from each batch key to every batch key that
      its template names as a variable or as the base of a pipeline. */
  function BuildGraph(vars: Scope): (g: Graph)
    ensures g.Keys == vars.Keys
    ensures forall k, d :: k in g ==>
      (d in g[k] <==> d in vars && vars[k].Str? && Parse(vars[k].s).Ok?
                      && exists j :: 0 <= j < |Parse(vars[k].s).value| && IsReference(Parse(vars[k].s).value[j])
                                     && Parse(vars[k].s).value[j].Name() == d)
  {
    map k | k in vars :: Dependencies(vars[k], vars.Keys)
  }

  /** Every scope entry a value's template reads. */
  function TemplateNeeds(v: Value): set<string> {
    if v.Str? then
      match Parse(v.s)
      case Ok(tokens) => set k, n | 0 <= k < |tokens| && n in Needs(tokens[k]) :: n
      case Err(_) => {}
    else {}
  }

  /** Every batch key the template of `k` reads is an edge of the graph. This fails only
      when a filter argument names a batch key that is not also named as a variable. */
  predicate Covered(vars: Scope, k: string)
    requires k in vars
  {
    forall n :: n in TemplateNeeds(vars[k]) && n in vars ==> n in Dependencies(vars[k], vars.Keys)
  }

  // ---------------------------------------------------------------------------
  // Resolution
  // ---------------------------------------------------------------------------

  /** `resolveVarValue`: a string is parsed and rendered against the variables resolved so
      far, a map is resolved as a batch of its own against the system variables, and any
      other value is kept. */
  function ResolveValue(registry: Registry, system: Scope, key: string, value: Value, resolved: Scope, ord: KeyOrder): (r: Result<Value, Error>)
    requires ValidOrder(ord)
    decreases value, 2
  {
    match value
    case Str(s) =>
      (match Parse(s)
       case Err(e) => Err(e)
       case Ok(tokens) =>
         match Render.Render(registry, tokens, resolved)
         case Err(e) => Err(WrapError(RenderingVariable(key), e))
         case Ok(v) => Ok(v))
    case Map(m) =>
      (match ResolveBatch(registry, system, m, ord)
       case Err(e) => Err(WrapError(ResolvingMap(key), e))
       case Ok(r) => Ok(Map(r)))
    case _ => Ok(value)
  }

  /** What `resolveVarValue` keeps, and how its errors are wrapped. */
  lemma {:induction false} ResolveValueShape(registry: Registry, system: Scope, key: string, value: Value, resolved: Scope, ord: KeyOrder)
    requires ValidOrder(ord)
    ensures var r := ResolveValue(registry, system, key, value, resolved, ord);
      && (!value.Str? && !value.Map? ==> r == Ok(value))
      && (value.Map? && r.Ok? ==> r.value.Map?)
      && (r.Err? ==> value.Str? || value.Map?)
      && (r.Err? && !r.error.Crash? ==>
            r.error.Wrapped? && r.error.context == (if value.Str? then RenderingVariable(key) else ResolvingMap(key)))
  {
    match value
    case Str(s) =>
    case Map(m) =>
    case _ =>
  }

  /** `resolveVariables`: the system variables overlaid by the raw batch, then every batch
      variable resolved and stored in dependency order. A cycle fails before anything is
      rendered; the first failing variable aborts the batch. */
  function ResolveBatch(registry: Registry, system: Scope, vars: Scope, ord: KeyOrder): (r: Result<Scope, Error>)
    requires ValidOrder(ord)
    decreases Map(vars), 1
  {
    match TopoSort(BuildGraph(vars), ord)
    case Err(e) => Err(e)
    case Ok(order) => ResolveInOrder(registry, system, vars, order, 0, system + vars, ord)
  }

  /** The loop over the sorted keys from position i. */
  function ResolveInOrder(registry: Registry, system: Scope, vars: Scope, order: seq<string>, i: nat, resolved: Scope, ord: KeyOrder): (r: Result<Scope, Error>)
    requires ValidOrder(ord)
    requires i <= |order| && forall j :: 0 <= j < |order| ==> order[j] in vars
    decreases Map(vars), 0, |order| - i
  {
    if i == |order| then Ok(resolved)
    else
      var key := order[i];
      match ResolveValue(registry, system, key, vars[key], resolved, ord)
      case Err(e) => Err(e)
      case Ok(v) => ResolveInOrder(registry, system, vars, order, i + 1, resolved[key := v], ord)
  }

  /** `mergeMaps`: the union of the maps, a later map winning on a key they share. */
  function MergeMaps(maps: seq<Scope>): (r: Scope)
    decreases |maps|
  {
    if |maps| == 0 then map[] else MergeMaps(maps[..|maps| - 1]) + maps[|maps| - 1]
  }

  /** The map at `i` is the last of `maps` to hold `k`. */
  ghost predicate LastHolder(maps: seq<Scope>, i: int, k: string) {
    0 <= i < |maps| && k in maps[i] && forall j :: i < j < |maps| ==> k !in maps[j]
  }

  /** A key of the merge is a key of some map, and its value comes from the last map
      holding it. */
  lemma {:induction false} MergeMapsSpec(maps: seq<Scope>)
    ensures forall k :: k in MergeMaps(maps) <==> exists i :: 0 <= i < |maps| && k in maps[i]
    ensures forall i, k :: LastHolder(maps, i, k) ==> MergeMaps(maps)[k] == maps[i][k]
  {
    forall k ensures k in MergeMaps(maps) <==> exists i :: 0 <= i < |maps| && k in maps[i] {
      MergeMapsKeys(maps, k);
    }
    forall i, k | LastHolder(maps, i, k) ensures MergeMaps(maps)[k] == maps[i][k] {
      MergeMapsValue(maps, i, k);
    }
  }

  lemma {:induction false} MergeMapsKeys(maps: seq<Scope>, k: string)
    ensures k in MergeMaps(maps) <==> exists i :: 0 <= i < |maps| && k in maps[i]
    decreases |maps|
  {
    if |maps| > 0 {
      var n := |maps| - 1;
      var init := maps[..n];
      MergeMapsKeys(init, k);
      assert MergeMaps(maps) == MergeMaps(init) + maps[n];
      if k in MergeMaps(init) {
        var i :| 0 <= i < |init| && k in init[i];
        assert maps[i] == init[i];
      }
      if exists i :: 0 <= i < |maps| && k in maps[i] {
        var i :| 0 <= i < |maps| && k in maps[i];
        if i < n {
          assert init[i] == maps[i];
        }
      }
    }
  }

  lemma {:induction false} MergeMapsValue(maps: seq<Scope>, i: int, k: string)
    requires LastHolder(maps, i, k)
    ensures k in MergeMaps(maps) && MergeMaps(maps)[k] == maps[i][k]
    decreases |maps|
  {
    var n := |maps| - 1;
    var init := maps[..n];
    assert MergeMaps(maps) == MergeMaps(init) + maps[n];
    if i < n {
      assert init[i] == maps[i];
      assert k !in maps[n];
      assert LastHolder(init, i, k) by {
        forall j | i < j < |init| ensures k !in init[j] {
          assert init[j] == maps[j];
        }
      }
      MergeMapsValue(init, i, k);
    }
  }

  /** `ResolveVariables`: the config batch against the system variables, then the action
      batch against system, resolved config and previous outputs, later maps winning. */
  function ResolveVariables(registry: Registry, system: Scope, config: Scope, action: Scope, output: Scope, ord: KeyOrder): (r: Result<Scope, Error>)
    requires ValidOrder(ord)
    ensures ResolveBatch(registry, system, config, ord).Err? ==> r.Err?
    ensures r.Err? ==> r.error.Crash? || (r.error.Wrapped? && r.error.context in {ConfigVariables, ActionVariables})
    ensures r.Err? && r.error.Wrapped? && r.error.context == ConfigVariables ==> ResolveBatch(registry, system, config, ord).Err?
  {
    match ResolveBatch(registry, system, config, ord)
    case Err(e) => Err(WrapError(ConfigVariables, e))
    case Ok(rc) =>
      var all := MergeMaps([system, rc, output]);
      match ResolveBatch(registry, all, action, ord)
      case Err(e) => Err(WrapError(ActionVariables, e))
      case Ok(ra) => Ok(MergeMaps([rc, ra]))
  }

  // ---------------------------------------------------------------------------
  // What a resolved batch satisfies
  // ---------------------------------------------------------------------------

  /** Outside the keys still to be processed, two scopes hold the same entries. */
  ghost predicate Settled(s: Scope, r: Scope, rest: seq<string>) {
    forall x :: x !in rest ==> (x in s <==> x in r) && (x in s ==> r[x] == s[x])
  }

  /** Resolving `k` once more against the final scope gives back its final value. */
  ghost predicate FixedAt(registry: Registry, system: Scope, vars: Scope, r: Scope, ord: KeyOrder, k: string)
    requires ValidOrder(ord) && k in vars
  {
    Covered(vars, k) ==> k in r && ResolveValue(registry, system, k, vars[k], r, ord) == Ok(r[k])
  }

  /** A value's resolution reads the scope only through the entries its template needs. */
  lemma {:induction false} ResolveValueFrame(registry: Registry, system: Scope, key: string, value: Value, a: Scope, b: Scope, ord: KeyOrder)
    requires ValidOrder(ord)
    requires AgreeOn(a, b, TemplateNeeds(value))
    ensures ResolveValue(registry, system, key, value, a, ord) == ResolveValue(registry, system, key, value, b, ord)
  {
    if value.Str? && Parse(value.s).Ok? {
      var tokens := Parse(value.s).value;
      forall k | 0 <= k < |tokens| ensures AgreeOn(a, b, Needs(tokens[k])) {
        forall n | n in Needs(tokens[k]) ensures n in TemplateNeeds(value) { }
      }
      RenderFrame(registry, tokens, a, b);
    }
  }

  /** The loop changes only the entries of the keys it has yet to process. */
  lemma {:induction false} ResolveInOrderSettles(registry: Registry, system: Scope, vars: Scope, order: seq<string>, i: nat, s: Scope, ord: KeyOrder)
    requires ValidOrder(ord)
    requires i <= |order| && (forall j :: 0 <= j < |order| ==> order[j] in vars)
    requires forall j :: 0 <= j < |order| ==> order[j] in s
    ensures var r := ResolveInOrder(registry, system, vars, order, i, s, ord);
      r.Ok? ==> r.value.Keys == s.Keys && Settled(s, r.value, order[i..])
    decreases |order| - i
  {
    if i < |order| {
      var key := order[i];
      var v := ResolveValue(registry, system, key, vars[key], s, ord);
      if v.Ok? {
        var s' := s[key := v.value];
        assert s'.Keys == s.Keys;
        ResolveInOrderSettles(registry, system, vars, order, i + 1, s', ord);
        var r := ResolveInOrder(registry, system, vars, order, i + 1, s', ord);
        assert ResolveInOrder(registry, system, vars, order, i, s, ord) == r;
        if r.Ok? {
          SettledStep(s, v.value, r.value, order, i);
        }
      }
    } else {
      assert order[i..] == [];
    }
  }

  /** A successful run of the loop from position `i`: the key at `i` resolved to some
      value, and the run from `i + 1` over the scope that holds it succeeded alike. */
  lemma {:induction false} ResolveInOrderStep(registry: Registry, system: Scope, vars: Scope, order: seq<string>, i: nat, s: Scope, ord: KeyOrder, r: Scope) returns (v: Value)
    requires ValidOrder(ord)
    requires i < |order| && forall j :: 0 <= j < |order| ==> order[j] in vars
    requires ResolveInOrder(registry, system, vars, order, i, s, ord) == Ok(r)
    ensures ResolveValue(registry, system, order[i], vars[order[i]], s, ord) == Ok(v)
    ensures ResolveInOrder(registry, system, vars, order, i + 1, s[order[i] := v], ord) == Ok(r)
  {
    v := ResolveValue(registry, system, order[i], vars[order[i]], s, ord).value;
  }

  /** Every key the loop resolves from position `i` on is a fixed point of the result. */
  lemma {:induction false} ResolveInOrderSpec(registry: Registry, system: Scope, vars: Scope, order: seq<string>, i: nat, s: Scope, ord: KeyOrder, r: Scope)
    requires ValidOrder(ord)
    requires i <= |order| && IsTopoOrder(BuildGraph(vars), order)
    requires forall j :: 0 <= j < |order| ==> order[j] in s
    requires ResolveInOrder(registry, system, vars, order, i, s, ord) == Ok(r)
    ensures forall j :: i <= j < |order| ==> FixedAt(registry, system, vars, r, ord, order[j])
    decreases |order| - i
  {
    if i < |order| {
      var v := ResolveInOrderStep(registry, system, vars, order, i, s, ord, r);
      ResolveInOrderSpec(registry, system, vars, order, i + 1, s[order[i] := v], ord, r);
      SpecStep(registry, system, vars, order, i, s, ord, v, r);
    }
  }

  /** One turn of the loop: the key resolved in this turn is fixed in the final scope,
      and so are the keys after it. */
  lemma {:induction false} SpecStep(registry: Registry, system: Scope, vars: Scope, order: seq<string>, i: nat, s: Scope, ord: KeyOrder, v: Value, r: Scope)
    requires ValidOrder(ord)
    requires i < |order| && IsTopoOrder(BuildGraph(vars), order)
    requires forall j :: 0 <= j < |order| ==> order[j] in s
    requires ResolveValue(registry, system, order[i], vars[order[i]], s, ord) == Ok(v)
    requires ResolveInOrder(registry, system, vars, order, i + 1, s[order[i] := v], ord) == Ok(r)
    requires forall j :: i + 1 <= j < |order| ==> FixedAt(registry, system, vars, r, ord, order[j])
    ensures forall j :: i <= j < |order| ==> FixedAt(registry, system, vars, r, ord, order[j])
  {
    var s' := s[order[i] := v];
    ResolveInOrderSettles(registry, system, vars, order, i + 1, s', ord);
    SettledStep(s, v, r, order, i);
    StepFixed(registry, system, vars, order, i, s, r, ord);
  }

  lemma {:induction false} SettledStep(s: Scope, v: Value, r: Scope, order: seq<string>, i: nat)
    requires i < |order| && order[i] in s
    requires Settled(s[order[i] := v], r, order[i + 1..])
    ensures Settled(s, r, order[i..])
    ensures NoDup(order) ==> order[i] in r && r[order[i]] == v
  {
    assert order[i..] == [order[i]] + order[i + 1..];
    if NoDup(order) {
      assert order[i] !in order[i + 1..] by {
        forall j | i + 1 <= j < |order| ensures order[j] != order[i] { }
      }
    }
  }

  /** The step that resolved `order[i]` against `s` gives the value it has at the end,
      because everything its template reads was settled before its turn. */
  lemma {:induction false} StepFixed(registry: Registry, system: Scope, vars: Scope, order: seq<string>, i: nat, s: Scope, r: Scope, ord: KeyOrder)
    requires ValidOrder(ord)
    requires i < |order| && IsTopoOrder(BuildGraph(vars), order)
    requires Settled(s, r, order[i..]) && order[i] in r
    requires ResolveValue(registry, system, order[i], vars[order[i]], s, ord) == Ok(r[order[i]])
    ensures FixedAt(registry, system, vars, r, ord, order[i])
  {
    var g := BuildGraph(vars);
    var key := order[i];
    if Covered(vars, key) {
      forall n | n in TemplateNeeds(vars[key]) ensures n !in order[i..] {
        if n in vars {
          assert n in g[key];
          assert n in order[..i];
          var j :| 0 <= j < i && order[j] == n;
          forall m | i <= m < |order| ensures order[m] != n { }
        }
      }
      ResolveValueFrame(registry, system, key, vars[key], s, r, ord);
    }
  }

  /** A resolved batch holds exactly the system keys and the batch keys, and a system
      variable that the batch does not redefine keeps its value. */
  lemma {:induction false} ResolveBatchKeys(registry: Registry, system: Scope, vars: Scope, ord: KeyOrder)
    requires ValidOrder(ord)
    ensures var r := ResolveBatch(registry, system, vars, ord);
      r.Ok? ==> (&& r.value.Keys == system.Keys + vars.Keys
                 && forall x :: x in system && x !in vars ==> r.value[x] == system[x])
  {
    var g := BuildGraph(vars);
    var t := TopoSort(g, ord);
    if t.Ok? {
      var order := t.value;
      var s := system + vars;
      ResolveInOrderSettles(registry, system, vars, order, 0, s, ord);
      var r := ResolveInOrder(registry, system, vars, order, 0, s, ord);
      assert ResolveBatch(registry, system, vars, ord) == r;
      if r.Ok? {
        assert order[0..] == order;
        assert s.Keys == system.Keys + vars.Keys;
        forall x | x in system && x !in vars ensures r.value[x] == system[x] {
          assert x !in order;
        }
      }
    }
  }

  /** Every batch variable of a resolved batch is a fixed point: resolving it once more
      against the result gives back its value, whatever order the keys came in. A variable
      whose filter arguments read a sibling that its template does not otherwise name is
      left out. */
  lemma {:induction false} ResolveBatchFixpoint(registry: Registry, system: Scope, vars: Scope, ord: KeyOrder)
    requires ValidOrder(ord)
    ensures var r := ResolveBatch(registry, system, vars, ord);
      r.Ok? ==> forall k :: k in vars && Covered(vars, k) ==>
                  k in r.value && ResolveValue(registry, system, k, vars[k], r.value, ord) == Ok(r.value[k])
  {
    var g := BuildGraph(vars);
    TopoSortCorrect(g, ord);
    var t := TopoSort(g, ord);
    if t.Ok? {
      var order := t.value;
      var s := system + vars;
      var r := ResolveInOrder(registry, system, vars, order, 0, s, ord);
      assert ResolveBatch(registry, system, vars, ord) == r;
      if r.Ok? {
        ResolveInOrderSpec(registry, system, vars, order, 0, s, ord, r.value);
        forall k | k in vars && Covered(vars, k)
          ensures k in r.value && ResolveValue(registry, system, k, vars[k], r.value, ord) == Ok(r.value[k])
        {
          var j :| 0 <= j < |order| && order[j] == k;
          assert FixedAt(registry, system, vars, r.value, ord, order[j]);
        }
      }
    }
  }

  /** A batch fails with the cycle error exactly when its graph has a cycle, a variable
      that names itself included; every other error carries a context or is a panic. */
  lemma {:induction false} ResolveBatchCycle(registry: Registry, system: Scope, vars: Scope, ord: KeyOrder)
    requires ValidOrder(ord)
    ensures ResolveBatch(registry, system, vars, ord) == Err(CycleDetected) <==> HasCycle(BuildGraph(vars))
  {
    var g := BuildGraph(vars);
    TopoSortCorrect(g, ord);
    var t := TopoSort(g, ord);
    if t.Ok? {
      ResolveInOrderErrors(registry, system, vars, t.value, 0, system + vars, ord);
    }
  }

  lemma {:induction false} ResolveInOrderErrors(registry: Registry, system: Scope, vars: Scope, order: seq<string>, i: nat, s: Scope, ord: KeyOrder)
    requires ValidOrder(ord)
    requires i <= |order| && forall j :: 0 <= j < |order| ==> order[j] in vars
    ensures var r := ResolveInOrder(registry, system, vars, order, i, s, ord);
      r.Err? ==> r.error.Crash? || r.error.Wrapped?
    decreases |order| - i
  {
    if i < |order| {
      var key := order[i];
      var v := ResolveValue(registry, system, key, vars[key], s, ord);
      if v.Ok? {
        ResolveInOrderErrors(registry, system, vars, order, i + 1, s[key := v.value], ord);
      }
    }
  }

  /** A value that is not a template needs nothing from the scope. */
  lemma {:induction false} NotTemplateCovered(vars: Scope, k: string)
    requires k in vars && !vars[k].Str?
    ensures Covered(vars, k) && TemplateNeeds(vars[k]) == {}
  {
  }

  /** Values that are neither strings nor maps are copied unchanged (nil and numbers
      included), and a nested map is resolved as a batch of its own against the system
      variables only, so its result also holds every system variable. */
  lemma {:induction false} ResolveBatchKeepsValues(registry: Registry, system: Scope, vars: Scope, ord: KeyOrder, k: string)
    requires ValidOrder(ord)
    requires ResolveBatch(registry, system, vars, ord).Ok? && k in vars && !vars[k].Str?
    ensures var r := ResolveBatch(registry, system, vars, ord).value;
      && k in r
      && (!vars[k].Map? ==> r[k] == vars[k])
      && (vars[k].Map? ==>
            && ResolveBatch(registry, system, vars[k].entries, ord).Ok?
            && r[k] == Map(ResolveBatch(registry, system, vars[k].entries, ord).value)
            && r[k].entries.Keys == system.Keys + vars[k].entries.Keys)
  {
    var r := ResolveBatch(registry, system, vars, ord).value;
    ResolveBatchFixpoint(registry, system, vars, ord);
    NotTemplateCovered(vars, k);
    assert k in r && ResolveValue(registry, system, k, vars[k], r, ord) == Ok(r[k]);
    ResolveUntemplated(registry, system, k, vars[k], r, ord, r[k]);
    if vars[k].Map? {
      ResolveBatchKeys(registry, system, vars[k].entries, ord);
    }
  }

  /** What resolving a value that is not a template yields. */
  lemma {:induction false} ResolveUntemplated(registry: Registry, system: Scope, key: string, value: Value, s: Scope, ord: KeyOrder, out: Value)
    requires ValidOrder(ord)
    requires !value.Str? && ResolveValue(registry, system, key, value, s, ord) == Ok(out)
    ensures !value.Map? ==> out == value
    ensures value.Map? ==>
      ResolveBatch(registry, system, value.entries, ord).Ok? && out == Map(ResolveBatch(registry, system, value.entries, ord).value)
  {
  }

  lemma {:induction false} MergeTwo(a: Scope, b: Scope)
    ensures MergeMaps([a, b]) == a + b
  {
    assert [a, b][..1] == [a];
    assert [a][..0] == [];
    assert MergeMaps([a]) == map[] + a;
    assert map[] + a == a;
  }

  lemma {:induction false} MergeThree(a: Scope, b: Scope, c: Scope)
    ensures MergeMaps([a, b, c]) == a + b + c
  {
    assert [a, b, c][..2] == [a, b];
    MergeTwo(a, b);
  }

  /** The final map of `ResolveVariables` is the resolved action batch, which holds the
      keys of all four maps: an action variable has its resolved value, and otherwise a
      previous output wins over a resolved config variable, which wins over a system
      variable. */
  lemma {:induction false} ResolveVariablesPrecedence(registry: Registry, system: Scope, config: Scope, action: Scope, output: Scope, ord: KeyOrder)
    requires ValidOrder(ord)
    ensures var r := ResolveVariables(registry, system, config, action, output, ord);
      r.Ok? ==>
        var rc := ResolveBatch(registry, system, config, ord).value;
        var ra := ResolveBatch(registry, MergeMaps([system, rc, output]), action, ord).value;
        && r.value == ra
        && ra.Keys == system.Keys + config.Keys + output.Keys + action.Keys
        && (forall k :: k in output && k !in action ==> ra[k] == output[k])
        && (forall k :: k in config && k !in output && k !in action ==> k in rc && ra[k] == rc[k])
        && (forall k :: k in system && k !in config && k !in output && k !in action ==> ra[k] == system[k])
  {
    var r := ResolveVariables(registry, system, config, action, output, ord);
    if r.Ok? {
      ResolveBatchKeys(registry, system, config, ord);
      var rc := ResolveBatch(registry, system, config, ord).value;
      var all := MergeMaps([system, rc, output]);
      MergeThree(system, rc, output);
      ResolveBatchKeys(registry, all, action, ord);
      var ra := ResolveBatch(registry, all, action, ord).value;
      MergeTwo(rc, ra);
      assert r.value == rc + ra;
      Overlays(system, config, rc, output, all, action, ra);
    }
  }

  lemma {:induction false} Overlays(system: Scope, config: Scope, rc: Scope, output: Scope, all: Scope, action: Scope, ra: Scope)
    requires rc.Keys == system.Keys + config.Keys
    requires forall x :: x in system && x !in config ==> rc[x] == system[x]
    requires all == system + rc + output
    requires ra.Keys == all.Keys + action.Keys
    requires forall x :: x in all && x !in action ==> ra[x] == all[x]
    ensures rc + ra == ra
    ensures ra.Keys == system.Keys + config.Keys + output.Keys + action.Keys
    ensures forall k :: k in output && k !in action ==> ra[k] == output[k]
    ensures forall k :: k in config && k !in output && k !in action ==> k in rc && ra[k] == rc[k]
    ensures forall k :: k in system && k !in config && k !in output && k !in action ==> ra[k] == system[k]
  {
  }

  // ---------------------------------------------------------------------------
  // The loop as written
  // ---------------------------------------------------------------------------

  /** `resolveVariables` as written: the batch variables are taken in the order Go's map
      iteration yields them, with no dependency order, each rendered against the raw batch
      overlaid by the variables resolved before it. A nested map is resolved as above. */
  function ResolveBatchAsWritten(registry: Registry, system: Scope, vars: Scope, ord: KeyOrder): (r: Result<Scope, Error>)
    requires ValidOrder(ord)
    ensures r.Ok? ==> r.value.Keys == system.Keys + vars.Keys
  {
    var order := ord(vars.Keys);
    assert Enumerates(order, vars.Keys);
    ResolveInOrderSettles(registry, system, vars, order, 0, system + vars, ord);
    ResolveInOrder(registry, system, vars, order, 0, system + vars, ord)
  }

  /** The system variables and the batch of the input that shows the difference: `b`
      names `a`, which names the system variable `r`. */
  const ChainSystem: Scope := map["r" := Str("x")]
  const ChainBatch: Scope := map["a" := Str("{{r}}"), "b" := Str("{{a}}")]

  /** A placeholder naming one variable parses to that variable's token. */
  lemma {:induction false} ParseReference(n: string)
    requires IsVariableName(n) && !Strings.HasPrefix(n, "if") && !Strings.HasPrefix(n, "else")
    ensures Parse("{{" + n + "}}") == Ok([BaseToken(Variable, n, n, [])])
  {
    PlaceholderThenText(n, "");
    assert "{{" + n + "}}" + "" == "{{" + n + "}}";
    assert [BaseToken(Variable, n, n, [])] + [] == [BaseToken(Variable, n, n, [])];
  }

  /** Resolving such a placeholder interpolates the variable: a string as it is, an integer
      in decimal, a boolean as "true" or "false"; any other value comes back as it is, and a
      missing variable is an error wrapped with the batch key and the token's name. */
  lemma {:induction false} ResolveReference(registry: Registry, system: Scope, key: string, n: string, s: Scope, ord: KeyOrder)
    requires ValidOrder(ord)
    requires IsVariableName(n) && !Strings.HasPrefix(n, "if") && !Strings.HasPrefix(n, "else")
    ensures n in s && Stringify(s[n]).Some? ==>
      ResolveValue(registry, system, key, Str("{{" + n + "}}"), s, ord) == Ok(Str(Stringify(s[n]).value))
    ensures n in s && Stringify(s[n]).None? ==>
      ResolveValue(registry, system, key, Str("{{" + n + "}}"), s, ord) == Ok(s[n])
    ensures n !in s ==>
      ResolveValue(registry, system, key, Str("{{" + n + "}}"), s, ord) ==
        Err(Wrapped(RenderingVariable(key), Wrapped(RenderingToken(n), VariableNotFound(n))))
  {
    ParseReference(n);
    var token := BaseToken(Variable, n, n, []);
    RenderOne(registry, token, s);
  }

  /** An empty template resolves to the empty string. */
  lemma {:induction false} ResolveEmptyTemplate(registry: Registry, system: Scope, key: string, s: Scope, ord: KeyOrder)
    requires ValidOrder(ord)
    ensures ResolveValue(registry, system, key, Str(""), s, ord) == Ok(Str(""))
  {
    assert Parse("") == Ok([TextToken("")]);
    RenderOne(registry, TextToken(""), s);
  }

  lemma {:induction false} ChainTemplates()
    ensures ChainBatch["a"] == Str("{{" + "r" + "}}") && ChainBatch["b"] == Str("{{" + "a" + "}}")
    ensures ChainBatch.Keys == {"a", "b"}
  {
  }

  /** The scope the loop starts from: the system variable and the raw templates. */
  lemma {:induction false} ChainStart()
    ensures var s := ChainSystem + ChainBatch;
      && "r" in s && s["r"] == Str("x")
      && "a" in s && s["a"] == ChainBatch["a"]
      && "b" in s && s["b"] == ChainBatch["b"]
  {
  }

  /** Two turns of the loop. */
  lemma {:induction false} InOrderTwo(registry: Registry, system: Scope, vars: Scope, order: seq<string>, s: Scope, ord: KeyOrder, v: Value, w: Value)
    requires ValidOrder(ord)
    requires |order| == 2 && order[0] in vars && order[1] in vars
    requires ResolveValue(registry, system, order[0], vars[order[0]], s, ord) == Ok(v)
    requires ResolveValue(registry, system, order[1], vars[order[1]], s[order[0] := v], ord) == Ok(w)
    ensures ResolveInOrder(registry, system, vars, order, 0, s, ord) == Ok(s[order[0] := v][order[1] := w])
  {
    assert ResolveInOrder(registry, system, vars, order, 2, s[order[0] := v][order[1] := w], ord) == Ok(s[order[0] := v][order[1] := w]);
  }

  /** The input that shows it: with the keys met in the order b, a, the loop as written
      renders `b` while `a` still holds its raw template, so `b` ends as the text `{{r}}`.
      That result is no fixed point: rendering the template of `b` against it gives `x`. */
  lemma {:induction false} ChainOrderCounterexample(registry: Registry, ord: KeyOrder)
    requires ValidOrder(ord) && ord({"a", "b"}) == ["b", "a"]
    ensures var r := ResolveBatchAsWritten(registry, ChainSystem, ChainBatch, ord);
      && r.Ok? && "a" in r.value && "b" in r.value
      && r.value["a"] == Str("x") && r.value["b"] == Str("{{r}}")
      && ResolveValue(registry, ChainSystem, "b", ChainBatch["b"], r.value, ord) == Ok(Str("x"))
  {
    ChainTemplates();
    ChainStart();
    var s0 := ChainSystem + ChainBatch;
    ResolveReference(registry, ChainSystem, "b", "a", s0, ord);
    var raw := s0["a"];
    assert raw == Str("{{r}}");
    var s1 := s0["b" := raw];
    ResolveReference(registry, ChainSystem, "a", "r", s1, ord);
    InOrderTwo(registry, ChainSystem, ChainBatch, ["b", "a"], s0, ord, raw, Str("x"));
    var s2 := s1["a" := Str("x")];
    ResolveReference(registry, ChainSystem, "b", "a", s2, ord);
  }

  /** The dependency graph of the chain: `b` depends on `a`, and `a` on no batch key. */
  lemma {:induction false} ChainGraph()
    ensures var g := BuildGraph(ChainBatch);
      g.Keys == {"a", "b"} && g["a"] == [] && g["b"] == ["a"]
  {
    ChainTemplates();
    ParseReference("r");
    ParseReference("a");
    var keys := ChainBatch.Keys;
    assert TokenDeps([BaseToken(Variable, "r", "r", [])], keys) == [];
    assert TokenDeps([BaseToken(Variable, "a", "a", [])], keys) == ["a"];
    assert Dependencies(ChainBatch["a"], keys) == [];
    assert Dependencies(ChainBatch["b"], keys) == ["a"];
  }

  /** A graph whose one edge leads to a node without edges has no cycle. */
  lemma {:induction false} ChainAcyclic(g: Graph)
    requires g.Keys == {"a", "b"} && g["a"] == [] && g["b"] == ["a"]
    ensures !HasCycle(g)
  {
    forall p ensures !IsCycle(g, p) {
      if |p| >= 2 && p[0] == "a" {
        assert p[1] !in g[p[0]];
      }
    }
  }

  /** The only order of the chain's keys that puts `a` before `b`. */
  lemma {:induction false} ChainOrder(g: Graph, order: seq<string>)
    requires g.Keys == {"a", "b"} && g["a"] == [] && g["b"] == ["a"]
    requires IsTopoOrder(g, order)
    ensures order == ["a", "b"]
  {
    var i :| 0 <= i < |order| && order[i] == "b";
    assert "a" in order[..i];
    var j :| 0 <= j < i && order[j] == "a";
    forall k | 0 <= k < |order| ensures (order[k] == "a" && k == j) || (order[k] == "b" && k == i) {
      if order[k] == "a" {
        assert order[k] == order[j];
      } else {
        assert order[k] == order[i];
      }
    }
    assert order[0] == "a" && j == 0;
    assert order[1] == "b" && i == 1;
    assert order[|order| - 1] == order[|order| - 1];
    assert |order| == 2;
  }

  /** The same input resolved in dependency order: `a` first, then `b`, both `x`. */
  lemma {:induction false} ChainResolved(registry: Registry, ord: KeyOrder)
    requires ValidOrder(ord)
    ensures var r := ResolveBatch(registry, ChainSystem, ChainBatch, ord);
      && r.Ok? && "a" in r.value && "b" in r.value
      && r.value["a"] == Str("x") && r.value["b"] == Str("x")
  {
    ChainSorted(ord);
    ChainInOrder(registry, ord);
    ResolveBatchInOrder(registry, ChainSystem, ChainBatch, ord, ["a", "b"]);
  }

  /** Whatever the iteration order, the sort puts a before b. */
  lemma {:induction false} ChainSorted(ord: KeyOrder)
    requires ValidOrder(ord)
    ensures TopoSort(BuildGraph(ChainBatch), ord) == Ok(["a", "b"])
  {
    var g := BuildGraph(ChainBatch);
    ChainGraph();
    ChainAcyclic(g);
    TopoSortCorrect(g, ord);
    ChainOrder(g, TopoSort(g, ord).value);
  }

  /** Resolving a, then b, stores "x" under both. */
  lemma {:induction false} ChainInOrder(registry: Registry, ord: KeyOrder)
    requires ValidOrder(ord)
    ensures var s0 := ChainSystem + ChainBatch;
      ResolveInOrder(registry, ChainSystem, ChainBatch, ["a", "b"], 0, s0, ord) == Ok(s0["a" := Str("x")]["b" := Str("x")])
  {
    ChainTemplates();
    ChainStart();
    var s0 := ChainSystem + ChainBatch;
    ResolveReference(registry, ChainSystem, "a", "r", s0, ord);
    ResolveReference(registry, ChainSystem, "b", "a", s0["a" := Str("x")], ord);
    InOrderTwo(registry, ChainSystem, ChainBatch, ["a", "b"], s0, ord, Str("x"), Str("x"));
  }

  /** An acyclic batch is resolved along the order the sort returns. */
  lemma {:induction false} ResolveBatchInOrder(registry: Registry, system: Scope, vars: Scope, ord: KeyOrder, order: seq<string>)
    requires ValidOrder(ord) && TopoSort(BuildGraph(vars), ord) == Ok(order)
    ensures forall j :: 0 <= j < |order| ==> order[j] in vars
    ensures ResolveBatch(registry, system, vars, ord) == ResolveInOrder(registry, system, vars, order, 0, system + vars, ord)
  {
    assert IsTopoOrder(BuildGraph(vars), order);
  }
}
