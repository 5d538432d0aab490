/**
 The older resolver of manager.go. It makes one pass over a batch in Go's map iteration
 order and renders every template against the system variables and the batch variables
 resolved before it. No dependency order is computed, so a template that names a batch
 variable not yet reached fails.
 */
module Manager {
  import opened Wrappers
  import opened Values
  import opened Token
  import opened Parser
  import opened Render
  import opened Topo
  import Builtins
  import Sintax

  /** `NewManager`'s registry: the builtins overlaid by the caller's filters. */
  function NewManager(funcs: Registry, format: Filter, json: Filter, yaml: Filter): (r: Registry)
    ensures r.Keys == Builtins.BuiltinNames + funcs.Keys
    ensures forall k :: k in funcs ==> r[k] == funcs[k]
    ensures forall k :: k in Builtins.BuiltinNames && k !in funcs ==>
      r[k] == Builtins.BuiltinFunctions(format, json, yaml)[k]
  {
    Builtins.BuiltinFunctions(format, json, yaml) + funcs
  }

  /** A caller that defines none of the builtin names only adds filters; one that
      redefines `trim` replaces the builtin. */
  lemma {:induction false} NewManagerKeepsBuiltins(funcs: Registry, format: Filter, json: Filter, yaml: Filter)
    ensures Builtins.BuiltinNames !! funcs.Keys ==>
      forall k :: k in Builtins.BuiltinNames ==> NewManager(funcs, format, json, yaml)[k] == Builtins.BuiltinFunctions(format, json, yaml)[k]
    ensures "trim" in funcs ==> NewManager(funcs, format, json, yaml)["trim"] == funcs["trim"]
    ensures |NewManager(funcs, format, json, yaml)| >= |Builtins.BuiltinNames|
  {
    var r := NewManager(funcs, format, json, yaml);
    assert Builtins.BuiltinNames <= r.Keys;
    SubsetCard(Builtins.BuiltinNames, r.Keys);
  }

  lemma {:induction false} SubsetCard(a: set<string>, b: set<string>)
    requires a <= b
    ensures |a| <= |b|
  {
    assert b == a + (b - a);
  }

  // ---------------------------------------------------------------------------
  // One pass over a batch
  // ---------------------------------------------------------------------------

  /** The body of the loop of `resolveVariables` for one variable: a string is parsed and
      rendered against the variables resolved so far, a map is resolved in a pass of its
      own that starts again from the system variables, and any other value is kept. */
  function ResolveEntry(registry: Registry, system: Scope, key: string, value: Value, resolved: Scope, ord: KeyOrder): (r: Result<Value, Error>)
    requires ValidOrder(ord)
    decreases value, 2
  {
    match value
    case Str(s) =>
      (match Parse(s)
       case Err(e) => Err(e)
       case Ok(tokens) =>
         match Render.Render(registry, tokens, resolved)
         case Err(e) => Err(WrapError(RenderingVariable(key), e))
         case Ok(v) => Ok(v))
    case Map(m) =>
      (match ResolvePass(registry, system, m, ord)
       case Err(e) => Err(WrapError(ResolvingMap(key), e))
       case Ok(r) => Ok(Map(r)))
    case _ => Ok(value)
  }

  /** `resolveVariables`: a copy of the system variables, then every batch variable in
      iteration order, each stored as soon as it is resolved. The first failure aborts. */
  function ResolvePass(registry: Registry, system: Scope, vars: Scope, ord: KeyOrder): (r: Result<Scope, Error>)
    requires ValidOrder(ord)
    decreases Map(vars), 1
  {
    PassFrom(registry, system, vars, ord(vars.Keys), 0, system, ord)
  }

  /** The loop from position i of the iteration order. */
  function PassFrom(registry: Registry, system: Scope, vars: Scope, order: seq<string>, i: nat, resolved: Scope, ord: KeyOrder): (r: Result<Scope, Error>)
    requires ValidOrder(ord)
    requires i <= |order| && forall j :: 0 <= j < |order| ==> order[j] in vars
    decreases Map(vars), 0, |order| - i
  {
    if i == |order| then Ok(resolved)
    else
      var key := order[i];
      match ResolveEntry(registry, system, key, vars[key], resolved, ord)
      case Err(e) => Err(e)
      case Ok(v) => PassFrom(registry, system, vars, order, i + 1, resolved[key := v], ord)
  }

  /** `ResolveVariables` without the clock: the config batch against the system
      variables, then the action batch against system, resolved config and previous
      outputs merged in that order; the result is resolved config overlaid by resolved
      actions. */
  function ResolveVariables(registry: Registry, system: Scope, config: Scope, action: Scope, output: Scope, ord: KeyOrder): (r: Result<Scope, Error>)
    requires ValidOrder(ord)
  {
    match ResolvePass(registry, system, config, ord)
    case Err(e) => Err(WrapError(ConfigVariables, e))
    case Ok(rc) =>
      var all := Sintax.MergeMaps([system, rc, output]);
      match ResolvePass(registry, all, action, ord)
      case Err(e) => Err(WrapError(ActionVariables, e))
      case Ok(ra) => Ok(Sintax.MergeMaps([rc, ra]))
  }

  // ---------------------------------------------------------------------------
  // What a pass computes
  // ---------------------------------------------------------------------------

  /** The scope a template sees when it is resolved after the keys `done`: the system
      variables overlaid by the final values of those keys. */
  function Earlier(system: Scope, r: Scope, done: seq<string>): (s: Scope)
    ensures s.Keys == system.Keys + (set k | k in done && k in r)
  {
    system + map k | k in done && k in r :: r[k]
  }

  lemma {:induction false} EarlierStep(system: Scope, r: Scope, done: seq<string>, x: string)
    requires x in r
    ensures Earlier(system, r, done + [x]) == Earlier(system, r, done)[x := r[x]]
  {
    var a := Earlier(system, r, done + [x]);
    var b := Earlier(system, r, done)[x := r[x]];
    assert a.Keys == b.Keys;
    forall k | k in a
      ensures a[k] == b[k]
    {
    }
  }

  /** Outside the keys still to be processed, the pass leaves the scope as it found it. */
  lemma {:induction false} PassFromSettles(registry: Registry, system: Scope, vars: Scope, order: seq<string>, i: nat, s: Scope, ord: KeyOrder)
    requires ValidOrder(ord)
    requires i <= |order| && forall j :: 0 <= j < |order| ==> order[j] in vars
    requires PassFrom(registry, system, vars, order, i, s, ord).Ok?
    ensures var r := PassFrom(registry, system, vars, order, i, s, ord).value;
      Sintax.Settled(s, r, order[i..]) && forall j :: i <= j < |order| ==> order[j] in r
    decreases |order| - i
  {
    var r := PassFrom(registry, system, vars, order, i, s, ord).value;
    if i < |order| {
      var key := order[i];
      var v := ResolveEntry(registry, system, key, vars[key], s, ord).value;
      PassFromSettles(registry, system, vars, order, i + 1, s[key := v], ord);
      assert order[i..] == [key] + order[i + 1..];
      forall x | x !in order[i..]
        ensures (x in s <==> x in r) && (x in s ==> r[x] == s[x])
      {
        assert x != key && x !in order[i + 1..];
      }
      assert key in s[key := v];
      if key !in order[i + 1..] {
        assert key in r;
      }
    }
  }

  /** The result holds exactly the system variables and the batch variables. */
  lemma {:induction false} ResolvePassKeys(registry: Registry, system: Scope, vars: Scope, ord: KeyOrder)
    requires ValidOrder(ord)
    requires ResolvePass(registry, system, vars, ord).Ok?
    ensures var r := ResolvePass(registry, system, vars, ord).value;
      && r.Keys == system.Keys + vars.Keys
      && forall x :: x in system && x !in vars ==> r[x] == system[x]
  {
    var order := ord(vars.Keys);
    assert Enumerates(order, vars.Keys);
    PassFromSettles(registry, system, vars, order, 0, system, ord);
    var r := ResolvePass(registry, system, vars, ord).value;
    assert order[0..] == order;
    forall x | x in vars
      ensures x in r
    {
      var j :| 0 <= j < |order| && order[j] == x;
    }
  }

  /** Each variable is resolved against exactly the system variables and the final values
      of the variables that precede it in the iteration order. */
  lemma {:induction false} PassFromSees(registry: Registry, system: Scope, vars: Scope, order: seq<string>, i: nat, s: Scope, ord: KeyOrder)
    requires ValidOrder(ord) && NoDup(order)
    requires i <= |order| && forall j :: 0 <= j < |order| ==> order[j] in vars
    requires PassFrom(registry, system, vars, order, i, s, ord).Ok?
    requires s == Earlier(system, PassFrom(registry, system, vars, order, i, s, ord).value, order[..i])
    ensures var r := PassFrom(registry, system, vars, order, i, s, ord).value;
      forall j :: i <= j < |order| ==>
        order[j] in r && ResolveEntry(registry, system, order[j], vars[order[j]], Earlier(system, r, order[..j]), ord) == Ok(r[order[j]])
    decreases |order| - i
  {
    var r := PassFrom(registry, system, vars, order, i, s, ord).value;
    if i < |order| {
      var key := order[i];
      var v := ResolveEntry(registry, system, key, vars[key], s, ord).value;
      var s' := s[key := v];
      assert PassFrom(registry, system, vars, order, i + 1, s', ord) == Ok(r);
      PassFromSettles(registry, system, vars, order, i + 1, s', ord);
      assert key !in order[i + 1..] by {
        forall j | i + 1 <= j < |order|
          ensures order[j] != key
        {
        }
      }
      assert r[key] == v;
      EarlierStep(system, r, order[..i], key);
      assert order[..i + 1] == order[..i] + [key];
      assert s' == Earlier(system, r, order[..i + 1]);
      PassFromSees(registry, system, vars, order, i + 1, s', ord);
    }
  }

  /** `resolveVariables` as the loop that sees its predecessors: the variable at position
      i of the iteration order is resolved against the system variables and the final
      values of the variables at positions before i, and nothing else. */
  lemma {:induction false} ResolvePassSees(registry: Registry, system: Scope, vars: Scope, ord: KeyOrder)
    requires ValidOrder(ord)
    requires ResolvePass(registry, system, vars, ord).Ok?
    ensures var o := ord(vars.Keys);
      var r := ResolvePass(registry, system, vars, ord).value;
      forall i :: 0 <= i < |o| ==>
        o[i] in r && ResolveEntry(registry, system, o[i], vars[o[i]], Earlier(system, r, o[..i]), ord) == Ok(r[o[i]])
  {
    var o := ord(vars.Keys);
    assert Enumerates(o, vars.Keys);
    var r := ResolvePass(registry, system, vars, ord).value;
    assert o[..0] == [];
    assert Earlier(system, r, o[..0]) == system;
    PassFromSees(registry, system, vars, o, 0, system, ord);
  }

  /** What each kind of value becomes: a value that is neither a string nor a map is
      copied, and a map is resolved in a pass of its own against the system variables,
      so the resolved map also holds every system variable. */
  lemma {:induction false} ResolvePassValues(registry: Registry, system: Scope, vars: Scope, ord: KeyOrder, k: string)
    requires ValidOrder(ord)
    requires ResolvePass(registry, system, vars, ord).Ok? && k in vars
    ensures var r := ResolvePass(registry, system, vars, ord).value;
      && k in r
      && (!vars[k].Str? && !vars[k].Map? ==> r[k] == vars[k])
      && (vars[k].Map? ==>
            && ResolvePass(registry, system, vars[k].entries, ord).Ok?
            && r[k] == Map(ResolvePass(registry, system, vars[k].entries, ord).value)
            && r[k].entries.Keys == system.Keys + vars[k].entries.Keys)
  {
    var o := ord(vars.Keys);
    assert Enumerates(o, vars.Keys);
    var i :| 0 <= i < |o| && o[i] == k;
    ResolvePassSees(registry, system, vars, ord);
    var r := ResolvePass(registry, system, vars, ord).value;
    var entry := ResolveEntry(registry, system, k, vars[k], Earlier(system, r, o[..i]), ord);
    assert k in r && entry == Ok(r[k]);
    match vars[k]
    case Map(m) =>
      assert entry == Ok(Map(ResolvePass(registry, system, m, ord).value));
      ResolvePassKeys(registry, system, m, ord);
    case Str(s) =>
    case _ =>
      assert entry == Ok(vars[k]);
  }

  /** A template naming a batch variable that is neither a system variable nor reached yet
      fails: when the iteration order yields `a` first and `a` is the template `{{b}}`,
      the pass fails with `b` not found, even though `b` is in the batch. */
  lemma {:induction false} ForwardReferenceFails(registry: Registry, system: Scope, vars: Scope, ord: KeyOrder, a: string, b: string)
    requires ValidOrder(ord)
    requires IsVariableName(b) && !Strings.HasPrefix(b, "if") && !Strings.HasPrefix(b, "else")
    requires a in vars && vars[a] == Str("{{" + b + "}}") && b !in system
    requires |ord(vars.Keys)| > 0 && ord(vars.Keys)[0] == a
    ensures ResolvePass(registry, system, vars, ord) ==
      Err(Wrapped(RenderingVariable(a), Wrapped(RenderingToken(b), VariableNotFound(b))))
  {
    PlaceholderThenText(b, "");
    assert "{{" + b + "}}" + "" == "{{" + b + "}}";
    var tok := BaseToken(Variable, b, b, []);
    assert [tok] + [] == [tok];
    assert Parse("{{" + b + "}}") == Ok([tok]);
    assert RenderVariable(registry, tok, system) == Err(VariableNotFound(b));
    RenderOne(registry, tok, system);
    assert Render.Render(registry, [tok], system) == Err(Wrapped(RenderingToken(b), VariableNotFound(b)));
    var order := ord(vars.Keys);
    assert ResolveEntry(registry, system, a, vars[a], system, ord) == Err(Wrapped(RenderingVariable(a), Wrapped(RenderingToken(b), VariableNotFound(b))));
  }

  /** An error names the variable it came from: it is a panic, or it is wrapped with the
      name of a batch variable whose template failed or whose map failed. */
  predicate Blames(e: Error, keys: set<string>) {
    e.Crash? ||
    (e.Wrapped? && (e.context.RenderingVariable? || e.context.ResolvingMap?) && e.context.name in keys)
  }

  lemma {:induction false} PassFromBlames(registry: Registry, system: Scope, vars: Scope, order: seq<string>, i: nat, s: Scope, ord: KeyOrder)
    requires ValidOrder(ord)
    requires i <= |order| && forall j :: 0 <= j < |order| ==> order[j] in vars
    requires PassFrom(registry, system, vars, order, i, s, ord).Err?
    ensures Blames(PassFrom(registry, system, vars, order, i, s, ord).error, vars.Keys)
    decreases |order| - i
  {
    var key := order[i];
    match ResolveEntry(registry, system, key, vars[key], s, ord)
    case Err(e) =>
    case Ok(v) => PassFromBlames(registry, system, vars, order, i + 1, s[key := v], ord);
  }

  /** The first failure aborts the pass with an error naming the failing variable. */
  lemma {:induction false} ResolvePassBlames(registry: Registry, system: Scope, vars: Scope, ord: KeyOrder)
    requires ValidOrder(ord)
    requires ResolvePass(registry, system, vars, ord).Err?
    ensures Blames(ResolvePass(registry, system, vars, ord).error, vars.Keys)
  {
    var order := ord(vars.Keys);
    assert Enumerates(order, vars.Keys);
    PassFromBlames(registry, system, vars, order, 0, system, ord);
  }

  /** `ResolveVariables`: the result is the resolved action batch, which holds every
      variable of the four maps; a key takes its value from the highest of action,
      previous outputs, config and system that defines it, and values that are not
      templates are copied from there unchanged. */
  lemma {:induction false} ResolveVariablesPrecedence(registry: Registry, system: Scope, config: Scope, action: Scope, output: Scope, ord: KeyOrder)
    requires ValidOrder(ord)
    requires ResolveVariables(registry, system, config, action, output, ord).Ok?
    ensures var r := ResolveVariables(registry, system, config, action, output, ord).value;
      && r.Keys == system.Keys + config.Keys + output.Keys + action.Keys
      && (forall k :: k in action && !action[k].Str? && !action[k].Map? ==> r[k] == action[k])
      && (forall k :: k in output && k !in action ==> r[k] == output[k])
      && (forall k :: k in config && k !in output && k !in action && !config[k].Str? && !config[k].Map? ==> r[k] == config[k])
      && (forall k :: k in system && k !in config && k !in output && k !in action ==> r[k] == system[k])
  {
    var rc := ResolvePass(registry, system, config, ord).value;
    var all := Sintax.MergeMaps([system, rc, output]);
    var ra := ResolvePass(registry, all, action, ord).value;
    ResolvePassKeys(registry, system, config, ord);
    Sintax.MergeThree(system, rc, output);
    ResolvePassKeys(registry, all, action, ord);
    Sintax.MergeTwo(rc, ra);
    assert ResolveVariables(registry, system, config, action, output, ord).value == rc + ra;
    Sintax.Overlays(system, config, rc, output, all, action, ra);
    CopiedValues(registry, all, action, ord);
    CopiedValues(registry, system, config, ord);
  }

  /** Every batch value that is not a template is in the result unchanged. */
  lemma {:induction false} CopiedValues(registry: Registry, system: Scope, vars: Scope, ord: KeyOrder)
    requires ValidOrder(ord)
    requires ResolvePass(registry, system, vars, ord).Ok?
    ensures var r := ResolvePass(registry, system, vars, ord).value;
      forall k :: k in vars && !vars[k].Str? && !vars[k].Map? ==> k in r && r[k] == vars[k]
  {
    forall k | k in vars && !vars[k].Str? && !vars[k].Map?
      ensures var r := ResolvePass(registry, system, vars, ord).value; k in r && r[k] == vars[k]
    {
      ResolvePassValues(registry, system, vars, ord, k);
    }
  }

  /** A failure names the batch it came from and, inside it, the failing variable. */
  lemma {:induction false} ResolveVariablesBlames(registry: Registry, system: Scope, config: Scope, action: Scope, output: Scope, ord: KeyOrder)
    requires ValidOrder(ord)
    requires ResolveVariables(registry, system, config, action, output, ord).Err?
    ensures var e := ResolveVariables(registry, system, config, action, output, ord).error;
      e.Crash? ||
      (e == Wrapped(ConfigVariables, e.inner) && Blames(e.inner, config.Keys)) ||
      (e == Wrapped(ActionVariables, e.inner) && Blames(e.inner, action.Keys))
  {
    match ResolvePass(registry, system, config, ord)
    case Err(_) => ResolvePassBlames(registry, system, config, ord);
    case Ok(rc) =>
      var all := Sintax.MergeMaps([system, rc, output]);
      ResolvePassBlames(registry, all, action, ord);
  }
}
