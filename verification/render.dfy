/** The renderer of render.go: a variable token becomes a value by a scope lookup and a
    left-to-right filter chain, and a token list becomes text. */
module Render {
  import opened Wrappers
  import opened Strings
  import opened Values
  import opened Token
  import opened Pipeline
  import Parser

  type Scope = map<string, Value>

  // ---------------------------------------------------------------------------
  // The filter chain
  // ---------------------------------------------------------------------------

  /** The positional arguments of a call: literals as they are, variable references looked
      up in the scope. The first missing reference is the error. */
  function ResolveArgs(args: seq<Arg>, vars: Scope): (r: Result<seq<Value>, Error>)
    ensures r.Ok? <==> forall k :: 0 <= k < |args| && args[k].VarRef? ==> args[k].name in vars
    ensures r.Ok? ==> |r.value| == |args|
    ensures r.Ok? ==> forall k :: 0 <= k < |args| ==>
      r.value[k] == (if args[k].VarRef? then vars[args[k].name] else args[k].value)
    ensures r.Err? ==> r.error.VariableNotFound? && exists k :: 0 <= k < |args| && args[k] == VarRef(r.error.name) && r.error.name !in vars
  {
    if |args| == 0 then Ok([])
    else
      var head: Result<Value, Error> :=
        if args[0].Literal? then Ok(args[0].value)
        else if args[0].name in vars then Ok(vars[args[0].name])
        else Err(VariableNotFound(args[0].name));
      if head.Err? then Err(head.error)
      else
        var rest := ResolveArgs(args[1..], vars);
        assert forall k :: 1 <= k < |args| ==> args[k] == args[1..][k - 1];
        if rest.Err? then rest
        else
          var r := [head.value] + rest.value;
          assert forall k :: 1 <= k < |args| ==> r[k] == rest.value[k - 1];
          Ok(r)
  }

  /** One call of the chain. An unknown filter, a missing argument variable and a panic
      stop the chain; a filter error stops it unless the chain has a `default` call and the
      error allows the default, in which case the value returned with the error goes on. */
  function ApplyOne(registry: Registry, f: Func, value: Value, vars: Scope, usesDefault: bool): Result<Value, Error> {
    if f.name !in registry then Err(FunctionNotFound(f.name))
    else
      match ResolveArgs(f.args, vars)
      case Err(e) => Err(e)
      case Ok(args) =>
        match registry[f.name](value, args)
        case Panicked(reason) => Err(Crash(reason))
        case Returned(next, None) => Ok(next)
        case Returned(next, Some(e)) =>
          if !usesDefault || !e.allowsDefault then Err(FunctionApplyFailed(e)) else Ok(next)
  }

  /** The loop over `funcs` in `renderVariable`. */
  function ApplyFuncs(registry: Registry, funcs: seq<Func>, value: Value, vars: Scope, usesDefault: bool): (r: Result<Value, Error>)
    decreases |funcs|
  {
    if |funcs| == 0 then Ok(value)
    else
      match ApplyOne(registry, funcs[0], value, vars, usesDefault)
      case Err(e) => Err(e)
      case Ok(next) => ApplyFuncs(registry, funcs[1..], next, vars, usesDefault)
  }

  /** How a single call's outcome is decided: which failures are errors, and when a
      filter error is swallowed. */
  lemma {:induction false} ErrorPolicy(registry: Registry, f: Func, value: Value, vars: Scope, usesDefault: bool)
    ensures var r := ApplyOne(registry, f, value, vars, usesDefault);
      && (f.name !in registry ==> r == Err(FunctionNotFound(f.name)))
      && (f.name in registry && ResolveArgs(f.args, vars).Ok? ==>
            match registry[f.name](value, ResolveArgs(f.args, vars).value)
            case Panicked(reason) => r == Err(Crash(reason))
            case Returned(next, None) => r == Ok(next)
            case Returned(next, Some(e)) =>
              (r == Ok(next) <==> usesDefault && e.allowsDefault)
              && (r.Err? ==> r == Err(FunctionApplyFailed(e))))
      && (r.Err? && r.error.FunctionApplyFailed? ==> !usesDefault || !r.error.cause.allowsDefault)
  {
  }

  /** The chain is a left fold: running two chains in a row is running their concatenation. */
  lemma {:induction false} ApplyFuncsAppend(registry: Registry, fs: seq<Func>, gs: seq<Func>, value: Value, vars: Scope, usesDefault: bool)
    ensures ApplyFuncs(registry, fs + gs, value, vars, usesDefault) ==
      match ApplyFuncs(registry, fs, value, vars, usesDefault)
      case Err(e) => Err(e)
      case Ok(mid) => ApplyFuncs(registry, gs, mid, vars, usesDefault)
    decreases |fs|
  {
    if |fs| == 0 {
      assert fs + gs == gs;
    } else {
      assert (fs + gs)[0] == fs[0];
      assert (fs + gs)[1..] == fs[1..] + gs;
      match ApplyOne(registry, fs[0], value, vars, usesDefault)
      case Err(e) =>
      case Ok(next) => ApplyFuncsAppend(registry, fs[1..], gs, next, vars, usesDefault);
    }
  }

  // ---------------------------------------------------------------------------
  // One token
  // ---------------------------------------------------------------------------

  /** `renderVariable`. A Text token yields its text; a token that is neither a variable
      nor a filtered variable is an invalid-token error; a plain variable is looked up and
      strings, booleans and integers come back as text; a filtered variable runs its chain. */
  function RenderVariable(registry: Registry, token: BaseToken, vars: Scope): (r: Result<Value, Error>)
    ensures token.Type() == Text ==> r == Ok(Str(token.Raw()))
    ensures token.Type() !in {Text, Variable, FilteredVariable} ==> r == Err(InvalidTokenType(token.Type().Code()))
    ensures token.Type() == Variable ==> (r.Err? <==> token.Name() !in vars)
    ensures token.Type() == Variable && r.Err? ==> r.error == VariableNotFound(token.Name())
    ensures token.Type() == FilteredVariable ==>
      match GetVarAndFunctions(token.Raw())
      case Err(e) => r == Err(e)
      case Ok((name, funcs)) => r == RunPipeline(registry, name, funcs, vars)
  {
    if token.Type() == Text then Ok(Str(token.Raw()))
    else if token.Type() != Variable && token.Type() != FilteredVariable then
      Err(InvalidTokenType(token.Type().Code()))
    else if token.Type() == Variable then LookUp(token.Name(), vars)
    else
      match GetVarAndFunctions(token.Raw())
      case Err(e) => Err(e)
      case Ok((name, funcs)) => RunPipeline(registry, name, funcs, vars)
  }

  /** The plain-variable branch of `renderVariable`. */
  function LookUp(name: string, vars: Scope): (r: Result<Value, Error>)
    ensures r.Err? <==> name !in vars
    ensures r.Err? ==> r.error == VariableNotFound(name)
  {
    if name !in vars then Err(VariableNotFound(name))
    else
      match vars[name]
      case Bool(b) => Ok(Str(BoolText(b)))
      case Int(n) => Ok(Str(Itoa(n)))
      case v => Ok(v)
  }

  /** The text a plain variable renders to, when its value is one the renderer turns into text. */
  function Stringify(v: Value): Option<string> {
    match v
    case Str(s) => Some(s)
    case Bool(b) => Some(BoolText(b))
    case Int(n) => Some(Itoa(n))
    case _ => None
  }

  /** A plain variable's value is turned into text without losing it: the text reads back as
      the same string, boolean or integer. */
  lemma {:induction false} VariableTextReadsBack(registry: Registry, token: BaseToken, vars: Scope)
    requires token.Type() == Variable && token.Name() in vars
    requires InInt64Value(vars[token.Name()])
    ensures var v := vars[token.Name()];
      && (Stringify(v).Some? ==> RenderVariable(registry, token, vars) == Ok(Str(Stringify(v).value)))
      && (Stringify(v).None? ==> RenderVariable(registry, token, vars) == Ok(v))
      && (v.Int? ==> Atoi(Stringify(v).value) == Some(v.n))
      && (v.Bool? ==> (Stringify(v).value == "true") == v.flag)
  {
    var v := vars[token.Name()];
    if v.Int? {
      ItoaAtoi(v.n);
    }
  }

  /** Integers in the scope are Go `int`s. */
  predicate InInt64Value(v: Value) {
    v.Int? ==> InInt64(v.n)
  }

  // ---------------------------------------------------------------------------
  // A token list
  // ---------------------------------------------------------------------------

  /** What one turn of `Render`'s loop does with a token: write a piece of text and go on,
      or end the loop with an outcome. */
  datatype Turn = Write(text: string) | Finish(outcome: Result<Value, Error>)

  /** The body of `Render`'s loop for one token. */
  function TokenTurn(registry: Registry, token: BaseToken, vars: Scope): Turn {
    TurnFor(token, RenderVariable(registry, token, vars))
  }

  /** The turn of a token given what `renderVariable` makes of it, which the loop only asks
      for variables. A Text token writes its text; a variable writes the string or boolean
      it renders to, ends the loop with any other value, and ends it with its error wrapped
      with the token's name (a panic is not wrapped); an If, Else, IfEnd, shorthand or
      undefined token writes nothing. */
  function TurnFor(token: BaseToken, rendered: Result<Value, Error>): (t: Turn)
    ensures t.Finish? ==> token.Type() in {Variable, FilteredVariable}
    ensures t.Finish? && t.outcome.Err? ==> t.outcome.error.Crash? || t.outcome.error.Wrapped?
  {
    if token.Type() == Text then Write(token.Raw())
    else if token.Type() == Variable || token.Type() == FilteredVariable then
      match rendered
      case Err(e) => Finish(Err(WrapError(RenderingToken(token.Name()), e)))
      case Ok(Str(s)) => Write(s)
      case Ok(Bool(b)) => Write(BoolText(b))
      case Ok(v) => Finish(Ok(v))
    else Write("")
  }

  /** The turns of a token list, one per token, in order. */
  function Turns(registry: Registry, tokens: seq<BaseToken>, vars: Scope): (ts: seq<Turn>)
    ensures |ts| == |tokens|
    ensures forall k :: 0 <= k < |tokens| ==> ts[k] == TokenTurn(registry, tokens[k], vars)
  {
    seq(|tokens|, k requires 0 <= k < |tokens| => TokenTurn(registry, tokens[k], vars))
  }

  /** The loop of `Render` from turn i with the text written so far: the text when every
      turn writes, otherwise the outcome of the first turn that finishes. */
  function RunTurns(turns: seq<Turn>, i: nat, acc: string): (r: Result<Value, Error>)
    requires i <= |turns|
    ensures r.Err? ==> exists k :: i <= k < |turns| && turns[k] == Finish(r)
    decreases |turns| - i
  {
    if i == |turns| then Ok(Str(acc))
    else
      match turns[i]
      case Write(text) => RunTurns(turns, i + 1, acc + text)
      case Finish(outcome) => outcome
  }

  /** `Render`. Each turn only reads its own token and the scope, so the turns the loop never
      reaches do not change the result. */
  function Render(registry: Registry, tokens: seq<BaseToken>, vars: Scope): (r: Result<Value, Error>)
    ensures r.Err? ==> r.error.Crash? || r.error.Wrapped?
  {
    RunTurns(Turns(registry, tokens, vars), 0, "")
  }

  // ---------------------------------------------------------------------------
  // Properties
  // ---------------------------------------------------------------------------

  /** No turn ends the loop. */
  predicate AllWrite(turns: seq<Turn>) {
    forall k :: 0 <= k < |turns| ==> turns[k].Write?
  }

  /** The texts the turns write, one after the other. */
  function Written(turns: seq<Turn>): string
    requires AllWrite(turns)
  {
    if |turns| == 0 then "" else turns[0].text + Written(turns[1..])
  }

  /** Turns that all write leave the loop with the text so far followed by their texts. */
  lemma {:induction false} RunWritten(turns: seq<Turn>, i: nat, acc: string)
    requires i <= |turns| && forall k :: i <= k < |turns| ==> turns[k].Write?
    ensures AllWrite(turns[i..])
    ensures RunTurns(turns, i, acc) == Ok(Str(acc + Written(turns[i..])))
    decreases |turns| - i
  {
    var rest := turns[i..];
    assert forall k :: 0 <= k < |rest| ==> rest[k] == turns[i + k];
    if i == |turns| {
      assert acc + Written(rest) == acc;
    } else {
      var text := turns[i].text;
      RunWritten(turns, i + 1, acc + text);
      assert rest[1..] == turns[i + 1..];
      assert Written(rest) == text + Written(turns[i + 1..]);
      assert acc + text + Written(turns[i + 1..]) == acc + Written(rest);
    }
  }

  /** The first turn that finishes is the result of the loop. */
  lemma {:induction false} RunFinishes(turns: seq<Turn>, j: nat, i: nat, acc: string)
    requires i <= j < |turns| && turns[j].Finish?
    requires forall k :: i <= k < j ==> turns[k].Write?
    ensures RunTurns(turns, i, acc) == turns[j].outcome
    decreases j - i
  {
    if i < j {
      RunFinishes(turns, j, i + 1, acc + turns[i].text);
    }
  }

  /** Turns that do not all write have a first one that finishes. */
  lemma {:induction false} FirstFinish(turns: seq<Turn>) returns (j: nat)
    requires !AllWrite(turns)
    ensures j < |turns| && turns[j].Finish?
    ensures forall k :: 0 <= k < j ==> turns[k].Write?
  {
    var w :| 0 <= w < |turns| && turns[w].Finish?;
    j := 0;
    while turns[j].Write?
      invariant j <= w
      invariant forall k :: 0 <= k < j ==> turns[k].Write?
      decreases w - j
    {
      j := j + 1;
    }
  }

  lemma {:induction false} WrittenAppend(a: seq<Turn>, b: seq<Turn>)
    requires AllWrite(a) && AllWrite(b)
    ensures AllWrite(a + b)
    ensures Written(a + b) == Written(a) + Written(b)
    decreases |a|
  {
    assert forall m :: 0 <= m < |a| + |b| ==> (a + b)[m] == if m < |a| then a[m] else b[m - |a|];
    if |a| == 0 {
      assert a + b == b;
    } else {
      WrittenAppend(a[1..], b);
      assert (a + b)[1..] == a[1..] + b;
    }
  }

  /** A turn that writes nothing, put anywhere among the turns, changes nothing. */
  lemma {:induction false} RunSilentTurn(turns: seq<Turn>, k: nat)
    requires k <= |turns|
    ensures RunTurns(turns[..k] + [Write("")] + turns[k..], 0, "") == RunTurns(turns, 0, "")
  {
    if AllWrite(turns) {
      SilentTurnWritten(turns, k);
    } else {
      SilentTurnFinished(turns, k);
    }
  }

  lemma {:induction false} SilentTurnWritten(turns: seq<Turn>, k: nat)
    requires k <= |turns| && AllWrite(turns)
    ensures RunTurns(turns[..k] + [Write("")] + turns[k..], 0, "") == RunTurns(turns, 0, "")
  {
    var a := turns[..k];
    var b := turns[k..];
    var ins := a + [Write("")] + b;
    assert AllWrite(a) && AllWrite(b) && AllWrite([Write("")] + b);
    assert Written([Write("")] + b) == Written(b) by {
      assert ([Write("")] + b)[1..] == b;
    }
    WrittenAppend(a, [Write("")] + b);
    WrittenAppend(a, b);
    assert a + b == turns;
    assert a + ([Write("")] + b) == ins;
    RunWritten(turns, 0, "");
    RunWritten(ins, 0, "");
    assert turns[0..] == turns && ins[0..] == ins;
  }

  lemma {:induction false} SilentTurnFinished(turns: seq<Turn>, k: nat)
    requires k <= |turns| && !AllWrite(turns)
    ensures RunTurns(turns[..k] + [Write("")] + turns[k..], 0, "") == RunTurns(turns, 0, "")
  {
    var ins := turns[..k] + [Write("")] + turns[k..];
    var j := FirstFinish(turns);
    var j' := if j < k then j else j + 1;
    assert ins[j'] == turns[j];
    forall m | 0 <= m < j' ensures ins[m].Write? {
      if m < k {
        assert ins[m] == turns[m];
      } else if m > k {
        assert ins[m] == turns[m - 1];
      }
    }
    RunFinishes(turns, j, 0, "");
    RunFinishes(ins, j', 0, "");
  }

  /** What one token adds to the output, or None when the token ends the rendering. */
  function Piece(registry: Registry, token: BaseToken, vars: Scope): Option<string> {
    match TokenTurn(registry, token, vars)
    case Write(text) => Some(text)
    case Finish(_) => None
  }

  /** No token of the list ends the rendering. */
  predicate AllPieces(registry: Registry, tokens: seq<BaseToken>, vars: Scope) {
    AllWrite(Turns(registry, tokens, vars))
  }

  /** The concatenation of the pieces of a list of tokens none of which ends the rendering. */
  function Pieces(registry: Registry, tokens: seq<BaseToken>, vars: Scope): string
    requires AllPieces(registry, tokens, vars)
  {
    Written(Turns(registry, tokens, vars))
  }

  /** The outcome of the token that ends the rendering: its error wrapped with its name, or
      the value it renders to. */
  function StopOutcome(registry: Registry, token: BaseToken, vars: Scope): Result<Value, Error> {
    match RenderVariable(registry, token, vars)
    case Err(e) => Err(WrapError(RenderingToken(token.Name()), e))
    case Ok(v) => Ok(v)
  }

  /** A token that ends the rendering is a variable whose value is neither a string nor a
      boolean, or whose rendering failed; its outcome is that value or that error, wrapped. */
  lemma {:induction false} TurnFinishes(registry: Registry, token: BaseToken, vars: Scope)
    requires TokenTurn(registry, token, vars).Finish?
    ensures TokenTurn(registry, token, vars).outcome == StopOutcome(registry, token, vars)
    ensures RenderVariable(registry, token, vars).Ok? ==>
      var v := RenderVariable(registry, token, vars).value;
      !v.Str? && !v.Bool?
  {
    match RenderVariable(registry, token, vars)
    case Err(e) =>
    case Ok(Str(s)) =>
    case Ok(Bool(b)) =>
    case Ok(v) =>
  }

  /** When no token ends the rendering, `Render` is the concatenation of the pieces: texts
      as they are, strings as they are, booleans as "true" or "false", and nothing for the
      conditional tokens. */
  lemma {:induction false} RenderConcatenates(registry: Registry, tokens: seq<BaseToken>, vars: Scope)
    requires AllPieces(registry, tokens, vars)
    ensures Render(registry, tokens, vars) == Ok(Str(Pieces(registry, tokens, vars)))
  {
    var turns := Turns(registry, tokens, vars);
    RunWritten(turns, 0, "");
    assert turns[0..] == turns;
    assert "" + Written(turns) == Written(turns);
  }

  /** The first token that ends the rendering decides the result, and the text built
      before it is dropped: a variable whose value is neither a string nor a boolean is the
      result itself, and an error is returned wrapped with the token's name. */
  lemma {:induction false} RenderStopsAt(registry: Registry, tokens: seq<BaseToken>, vars: Scope, j: nat)
    requires j < |tokens|
    requires forall k :: 0 <= k < j ==> Piece(registry, tokens[k], vars).Some?
    requires Piece(registry, tokens[j], vars).None?
    ensures Render(registry, tokens, vars) == StopOutcome(registry, tokens[j], vars)
    ensures RenderVariable(registry, tokens[j], vars).Ok? ==>
      var v := RenderVariable(registry, tokens[j], vars).value;
      !v.Str? && !v.Bool? && Render(registry, tokens, vars) == Ok(v)
  {
    var turns := Turns(registry, tokens, vars);
    RunFinishes(turns, j, 0, "");
    TurnFinishes(registry, tokens[j], vars);
  }

  /** A one-token template renders to what the token writes, or to its outcome. */
  lemma {:induction false} RenderOne(registry: Registry, token: BaseToken, vars: Scope)
    ensures Render(registry, [token], vars) ==
      match TokenTurn(registry, token, vars)
      case Write(text) => Ok(Str(text))
      case Finish(outcome) => outcome
  {
    var turns := Turns(registry, [token], vars);
    assert turns[0] == TokenTurn(registry, token, vars);
    if turns[0].Write? {
      var text := turns[0].text;
      assert RunTurns(turns, 1, "" + text) == Ok(Str("" + text));
      assert "" + text == text;
    }
  }

  /** A template that is one variable placeholder renders to the string the variable
      renders to. */
  lemma {:induction false} RenderSingle(registry: Registry, token: BaseToken, vars: Scope, out: string)
    requires token.Type() in {Variable, FilteredVariable}
    requires RenderVariable(registry, token, vars) == Ok(Str(out))
    ensures Render(registry, [token], vars) == Ok(Str(out))
  {
    assert TokenTurn(registry, token, vars) == Write(out);
    RenderOne(registry, token, vars);
  }

  /** Inserting an If, Else, IfEnd, shorthand or undefined token anywhere in a list does not
      change what the list renders to: those tokens are skipped. */
  lemma {:induction false} SilentTokenVanishes(registry: Registry, tokens: seq<BaseToken>, vars: Scope, k: nat, t: BaseToken)
    requires k <= |tokens| && t.Type() !in {Text, Variable, FilteredVariable}
    ensures Render(registry, tokens[..k] + [t] + tokens[k..], vars) == Render(registry, tokens, vars)
  {
    var turns := Turns(registry, tokens, vars);
    assert TurnFor(t, RenderVariable(registry, t, vars)) == Write("");
    TurnsInsert(registry, tokens, vars, k, t);
    RunSilentTurn(turns, k);
  }

  /** A sequence that agrees with `a` before k, holds x at k and agrees with `a` shifted
      by one after k is `a` with x inserted at k. */
  lemma {:induction false} InsertAt<T>(a: seq<T>, b: seq<T>, x: T, k: nat)
    requires k <= |a| && |b| == |a| + 1
    requires forall m :: 0 <= m < k ==> b[m] == a[m]
    requires b[k] == x
    requires forall m :: k < m < |b| ==> b[m] == a[m - 1]
    ensures b == a[..k] + [x] + a[k..]
  {
    var c := a[..k] + [x] + a[k..];
    forall m | 0 <= m < |b| ensures b[m] == c[m] {
      if m > k { assert c[m] == a[m - 1]; }
    }
  }

  /** The turns of a list with one token inserted are its turns with that token's turn
      inserted at the same place. */
  lemma {:induction false} TurnsInsert(registry: Registry, tokens: seq<BaseToken>, vars: Scope, k: nat, t: BaseToken)
    requires k <= |tokens|
    ensures Turns(registry, tokens[..k] + [t] + tokens[k..], vars) ==
      Turns(registry, tokens, vars)[..k] + [TokenTurn(registry, t, vars)] + Turns(registry, tokens, vars)[k..]
  {
    var ins := tokens[..k] + [t] + tokens[k..];
    var turns := Turns(registry, tokens, vars);
    var got := Turns(registry, ins, vars);
    forall m | 0 <= m < k ensures got[m] == turns[m] {
      assert ins[m] == tokens[m];
    }
    forall m | k < m < |ins| ensures got[m] == turns[m - 1] {
      assert ins[m] == tokens[m - 1];
    }
    assert got[k] == TokenTurn(registry, t, vars) by { assert ins[k] == t; }
    InsertAt(turns, got, TokenTurn(registry, t, vars), k);
  }

  /** The text of a token list made of Text tokens only. */
  function TextOf(tokens: seq<BaseToken>): string
    requires forall k :: 0 <= k < |tokens| ==> tokens[k].Type() == Text
  {
    if |tokens| == 0 then "" else tokens[0].Raw() + TextOf(tokens[1..])
  }

  /** Text tokens write their texts. */
  lemma {:induction false} TextTurns(registry: Registry, tokens: seq<BaseToken>, vars: Scope)
    requires forall k :: 0 <= k < |tokens| ==> tokens[k].Type() == Text
    ensures AllPieces(registry, tokens, vars)
    ensures Pieces(registry, tokens, vars) == TextOf(tokens)
    decreases |tokens|
  {
    var turns := Turns(registry, tokens, vars);
    if |tokens| > 0 {
      TextTurns(registry, tokens[1..], vars);
      assert turns[1..] == Turns(registry, tokens[1..], vars);
    }
  }

  /** Text-only token lists render to the concatenation of their texts, whatever the scope. */
  lemma {:induction false} RenderText(registry: Registry, tokens: seq<BaseToken>, vars: Scope)
    requires forall k :: 0 <= k < |tokens| ==> tokens[k].Type() == Text
    ensures Render(registry, tokens, vars) == Ok(Str(TextOf(tokens)))
  {
    TextTurns(registry, tokens, vars);
    RenderConcatenates(registry, tokens, vars);
  }

  /** A template without `{{` or `}}` renders to itself. */
  lemma {:induction false} PlainTemplateRendersItself(registry: Registry, t: string, vars: Scope)
    requires Parser.NoDelimiters(t)
    ensures Parser.Parse(t).Ok?
    ensures Render(registry, Parser.Parse(t).value, vars) == Ok(Str(t))
  {
    Parser.PlainTextIsOneToken(t);
    var tokens := [TextToken(t)];
    assert Parser.Parse(t).value == tokens;
    RenderOne(registry, tokens[0], vars);
  }

  /** The scope entries a token reads: its variable, or its pipeline's base variable and
      every variable its arguments reference. */
  function Needs(token: BaseToken): set<string> {
    if token.Type() == Variable then {token.Name()}
    else if token.Type() == FilteredVariable then
      match GetVarAndFunctions(token.Raw())
      case Err(_) => {}
      case Ok((name, funcs)) => {name} + ArgVars(funcs)
    else {}
  }

  /** The variables referenced by the arguments of a chain. */
  function ArgVars(funcs: seq<Func>): set<string> {
    set k, j | 0 <= k < |funcs| && 0 <= j < |funcs[k].args| && funcs[k].args[j].VarRef? :: funcs[k].args[j].name
  }

  /** Two scopes agree on a set of names: each name is in both or in neither, with the same value. */
  predicate AgreeOn(a: Scope, b: Scope, names: set<string>) {
    forall n :: n in names ==> (n in a <==> n in b) && (n in a ==> a[n] == b[n])
  }

  lemma {:induction false} ResolveArgsFrame(args: seq<Arg>, a: Scope, b: Scope)
    requires forall j :: 0 <= j < |args| && args[j].VarRef? ==> AgreeOn(a, b, {args[j].name})
    ensures ResolveArgs(args, a) == ResolveArgs(args, b)
  {
    if |args| > 0 {
      assert forall j :: 1 <= j < |args| ==> args[1..][j - 1] == args[j];
      ResolveArgsFrame(args[1..], a, b);
      if args[0].VarRef? {
        assert AgreeOn(a, b, {args[0].name});
      }
    }
  }

  lemma {:induction false} ArgVarsTail(funcs: seq<Func>)
    requires |funcs| > 0
    ensures ArgVars(funcs[1..]) <= ArgVars(funcs)
    ensures forall j :: 0 <= j < |funcs[0].args| && funcs[0].args[j].VarRef? ==> funcs[0].args[j].name in ArgVars(funcs)
  {
    forall n | n in ArgVars(funcs[1..]) ensures n in ArgVars(funcs) {
      var k, j :| 0 <= k < |funcs[1..]| && 0 <= j < |funcs[1..][k].args| && funcs[1..][k].args[j].VarRef? && funcs[1..][k].args[j].name == n;
      assert funcs[k + 1] == funcs[1..][k];
    }
  }

  lemma {:induction false} ApplyOneFrame(registry: Registry, f: Func, value: Value, a: Scope, b: Scope, usesDefault: bool)
    requires forall j :: 0 <= j < |f.args| && f.args[j].VarRef? ==> AgreeOn(a, b, {f.args[j].name})
    ensures ApplyOne(registry, f, value, a, usesDefault) == ApplyOne(registry, f, value, b, usesDefault)
  {
    ResolveArgsFrame(f.args, a, b);
  }

  lemma {:induction false} ApplyFuncsFrame(registry: Registry, funcs: seq<Func>, value: Value, a: Scope, b: Scope, usesDefault: bool)
    requires AgreeOn(a, b, ArgVars(funcs))
    ensures ApplyFuncs(registry, funcs, value, a, usesDefault) == ApplyFuncs(registry, funcs, value, b, usesDefault)
    decreases |funcs|
  {
    if |funcs| > 0 {
      ArgVarsTail(funcs);
      ApplyOneFrame(registry, funcs[0], value, a, b, usesDefault);
      match ApplyOne(registry, funcs[0], value, a, usesDefault)
      case Err(_) =>
      case Ok(next) => ApplyFuncsFrame(registry, funcs[1..], next, a, b, usesDefault);
    }
  }

  /** A token's value depends on nothing in the scope but the entries it reads. */
  lemma {:induction false} RenderVariableFrame(registry: Registry, token: BaseToken, a: Scope, b: Scope)
    requires AgreeOn(a, b, Needs(token))
    ensures RenderVariable(registry, token, a) == RenderVariable(registry, token, b)
  {
    if token.Type() == FilteredVariable {
      FilteredTokenFrame(registry, token, a, b);
    } else if token.Type() == Variable {
      assert token.Name() in Needs(token);
      LookUpFrame(token.Name(), a, b);
    }
  }

  lemma {:induction false} LookUpFrame(name: string, a: Scope, b: Scope)
    requires (name in a <==> name in b) && (name in a ==> a[name] == b[name])
    ensures LookUp(name, a) == LookUp(name, b)
  {
  }

  lemma {:induction false} FilteredTokenFrame(registry: Registry, token: BaseToken, a: Scope, b: Scope)
    requires token.Type() == FilteredVariable && AgreeOn(a, b, Needs(token))
    ensures RenderVariable(registry, token, a) == RenderVariable(registry, token, b)
  {
    var parsed := GetVarAndFunctions(token.Raw());
    if parsed.Ok? {
      var name := parsed.value.0;
      var funcs := parsed.value.1;
      RenderFiltered(registry, token, name, funcs, a);
      RenderFiltered(registry, token, name, funcs, b);
      FilteredFrame(registry, name, funcs, a, b);
    }
  }

  /** A parsed filtered token runs its pipeline, and reads its base and argument variables. */
  lemma {:induction false} RenderFiltered(registry: Registry, token: BaseToken, name: string, funcs: seq<Func>, vars: Scope)
    requires token.Type() == FilteredVariable && GetVarAndFunctions(token.Raw()) == Ok((name, funcs))
    ensures RenderVariable(registry, token, vars) == RunPipeline(registry, name, funcs, vars)
    ensures Needs(token) == {name} + ArgVars(funcs)
  {
  }

  /** The filtered-variable branch of `renderVariable`, on an already parsed pipeline. A
      missing base variable is an error only when there is no filter; otherwise the chain
      starts from nil, so that a `default` call can supply the value. */
  function RunPipeline(registry: Registry, name: string, funcs: seq<Func>, vars: Scope): (r: Result<Value, Error>)
    ensures |funcs| == 0 ==> (r.Err? <==> name !in vars)
    ensures |funcs| == 0 && name !in vars ==> r == Err(VariableNotFound(name))
    ensures |funcs| == 0 && name in vars ==> r == Ok(vars[name])
    ensures |funcs| > 0 && name !in vars ==> r == ApplyFuncs(registry, funcs, Nil, vars, HasDefaultFunction(funcs))
    ensures |funcs| > 0 && name in vars ==> r == ApplyFuncs(registry, funcs, vars[name], vars, HasDefaultFunction(funcs))
  {
    if |funcs| == 0 then
      if name !in vars then Err(VariableNotFound(name)) else Ok(vars[name])
    else
      var start := if name in vars then vars[name] else Nil;
      ApplyFuncs(registry, funcs, start, vars, HasDefaultFunction(funcs))
  }

  lemma {:induction false} FilteredFrame(registry: Registry, name: string, funcs: seq<Func>, a: Scope, b: Scope)
    requires AgreeOn(a, b, {name} + ArgVars(funcs))
    ensures RunPipeline(registry, name, funcs, a) == RunPipeline(registry, name, funcs, b)
  {
    assert name in {name} + ArgVars(funcs);
    if |funcs| > 0 {
      ApplyFuncsFrame(registry, funcs, if name in a then a[name] else Nil, a, b, HasDefaultFunction(funcs));
    }
  }

  /** The names a token list reads. */
  predicate AgreeOnAll(a: Scope, b: Scope, tokens: seq<BaseToken>) {
    forall k :: 0 <= k < |tokens| ==> AgreeOn(a, b, Needs(tokens[k]))
  }

  /** Rendering a token list reads the scope only through the entries its tokens need. */
  lemma {:induction false} RenderFrame(registry: Registry, tokens: seq<BaseToken>, a: Scope, b: Scope)
    requires AgreeOnAll(a, b, tokens)
    ensures Render(registry, tokens, a) == Render(registry, tokens, b)
  {
    forall k | 0 <= k < |tokens|
      ensures TokenTurn(registry, tokens[k], a) == TokenTurn(registry, tokens[k], b)
    {
      TokenTurnFrame(registry, tokens[k], a, b);
    }
    assert Turns(registry, tokens, a) == Turns(registry, tokens, b);
  }

  lemma {:induction false} TokenTurnFrame(registry: Registry, token: BaseToken, a: Scope, b: Scope)
    requires AgreeOn(a, b, Needs(token))
    ensures TokenTurn(registry, token, a) == TokenTurn(registry, token, b)
  {
    RenderVariableFrame(registry, token, a, b);
  }
}
