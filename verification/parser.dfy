/** The template tokenizer of parser.go: text outside `{{ ... }}` becomes Text tokens,
    each placeholder becomes a token whose kind is read off its trimmed contents. */
module Parser {
  import opened Wrappers
  import opened Strings
  import opened Values
  import opened Token
  import Pipeline

  // ---------------------------------------------------------------------------
  // Classification of placeholder contents
  // ---------------------------------------------------------------------------

  predicate IsNameStart(c: char) { IsLetter(c) || c == '_' || c == '.' }
  predicate IsNameChar(c: char) { IsNameStart(c) || IsDigit(c) }

  /** `isVariable`: the whole text matches `[a-zA-Z_.][a-zA-Z0-9_.]*`. */
  predicate IsVariableName(s: string) {
    |s| > 0 && IsNameStart(s[0]) && forall i :: 0 < i < |s| ==> IsNameChar(s[i])
  }

  /** `detectTokenType`: the first matching rule, on the trimmed contents. The keyword
      rules are plain prefix tests, so `iffy` is an If placeholder. */
  function DetectTokenType(contents: string): (r: TokenType)
    ensures r != Text
    ensures r == If <==> HasPrefix(TrimSpace(contents), "if")
    ensures r == Variable ==> IsVariableName(TrimSpace(contents)) && !ContainsChar(TrimSpace(contents), '|')
    ensures r == FilteredVariable ==> ContainsChar(TrimSpace(contents), '|') && !IsVariableName(TrimSpace(contents))
    ensures r == ShorthandIf ==> Contains(TrimSpace(contents), " ? ") && Contains(TrimSpace(contents), " : ")
    ensures r == Undefined ==> !ContainsChar(TrimSpace(contents), '|') && !IsVariableName(TrimSpace(contents))
  {
    Classify(TrimSpace(contents))
  }

  /** A keyword placeholder: one of the three prefix rules applies. */
  predicate IsKeyword(s: string) {
    HasPrefix(s, "if") || HasPrefix(s, "/if") || HasPrefix(s, "else")
  }

  /** The shorthand conditional `cond ? a : b`. */
  predicate IsShorthand(s: string) {
    Contains(s, " ? ") && Contains(s, " : ")
  }

  /** The classification rule of `detectTokenType`: on the trimmed contents, each kind is
      chosen exactly when its own test holds and no earlier test does, the order being
      `if`, `/if`, `else`, shorthand, plain name, `|`, and Undefined for the rest. */
  lemma {:induction false} DetectRules(contents: string)
    ensures var s, r := TrimSpace(contents), DetectTokenType(contents);
      && (r == If <==> HasPrefix(s, "if"))
      && (r == IfEnd <==> !HasPrefix(s, "if") && HasPrefix(s, "/if"))
      && (r == Else <==> !HasPrefix(s, "if") && !HasPrefix(s, "/if") && HasPrefix(s, "else"))
      && (r == ShorthandIf <==> !IsKeyword(s) && IsShorthand(s))
      && (r == Variable <==> !IsKeyword(s) && !IsShorthand(s) && IsVariableName(s))
      && (r == FilteredVariable <==> !IsKeyword(s) && !IsShorthand(s) && !IsVariableName(s) && ContainsChar(s, '|'))
      && (r == Undefined <==> !IsKeyword(s) && !IsShorthand(s) && !IsVariableName(s) && !ContainsChar(s, '|'))
  {
    var s := TrimSpace(contents);
    assert DetectTokenType(contents) == Classify(s);
  }

  /** The keyword rules on instances: they are prefix tests in order, so `iffy` is an If
      placeholder and `/if` is IfEnd although `if` follows its slash. */
  lemma {:induction false} DetectKeywords()
    ensures Classify("/if") == IfEnd
    ensures Classify("else") == Else
    ensures Classify("iffy") == If
  {
    assert "/if"[..3] == "/if" && "/if"[..2][0] == '/';
    assert "else"[..4] == "else" && "else"[..2][0] == 'e' && "else"[..3][0] == 'e';
    assert "iffy"[..2] == "if";
  }

  /** Two name characters around a bar make a filtered placeholder: the bar keeps the
      text from being a plain name, and no earlier rule applies. */
  lemma {:induction false} DetectFiltered(a: char, b: char)
    requires IsNameChar(a) && IsNameChar(b)
    ensures Classify([a, '|', b]) == FilteredVariable
  {
    var s := [a, '|', b];
    assert !IsKeyword(s) by { assert s[1] == '|'; }
    LacksFirst(s, " ? ");
    assert !IsVariableName(s) && ContainsChar(s, '|') by { assert s[1] == '|'; }
  }

  /** A digit followed by a name character matches no rule: it is Undefined. */
  lemma {:induction false} DetectUndefined(d: char, c: char)
    requires IsDigit(d) && IsNameChar(c)
    ensures Classify([d, c]) == Undefined
  {
    var s := [d, c];
    assert !IsKeyword(s) by { assert s[0] == d; }
    LacksFirst(s, " ? ");
    assert !IsVariableName(s) by { assert !IsNameStart(s[0]); }
    assert !ContainsChar(s, '|') by { assert forall i :: 0 <= i < |s| ==> s[i] != '|'; }
  }

  /** The rules of `detectTokenType` in order, on contents already trimmed. */
  function Classify(s: string): (r: TokenType)
    ensures r != Text
    ensures r == If <==> HasPrefix(s, "if")
    ensures r == Variable ==> IsVariableName(s) && !ContainsChar(s, '|')
    ensures r == FilteredVariable ==> ContainsChar(s, '|') && !IsVariableName(s)
    ensures r == ShorthandIf ==> Contains(s, " ? ") && Contains(s, " : ")
    ensures r == Undefined ==> !ContainsChar(s, '|') && !IsVariableName(s)
  {
    if HasPrefix(s, "if") then If
    else if HasPrefix(s, "/if") then IfEnd
    else if HasPrefix(s, "else") then Else
    else if Contains(s, " ? ") && Contains(s, " : ") then ShorthandIf
    else if IsVariableName(s) then Variable
    else if ContainsChar(s, '|') then FilteredVariable
    else Undefined
  }

  /** `createToken`, with the variable name the renderer looks up: the trimmed contents for a
      Variable placeholder and the part before the first unquoted `|` for a filtered one. */
  function CreateToken(tokenType: TokenType, contents: string): (r: BaseToken)
    ensures r.Params() == []
    ensures r.Type() == (if tokenType == Undefined || tokenType == Text then Text else tokenType)
  {
    match tokenType
    case Variable => var s := TrimSpace(contents); BaseToken(Variable, s, s, [])
    case FilteredVariable => var s := TrimSpace(contents); BaseToken(FilteredVariable, s, Pipeline.BaseName(s), [])
    case If =>
      var s := TrimSpace(contents);
      BaseToken(If, if HasPrefix(s, "if") then TrimSpace(s[2..]) else s, "", [])
    case Else => BaseToken(Else, "", "", [])
    case IfEnd => BaseToken(IfEnd, "", "", [])
    case ShorthandIf => BaseToken(ShorthandIf, TrimSpace(contents), "", [])
    case _ => TextToken(contents)
  }

  /** What every token the parser emits satisfies, by kind. */
  predicate WellFormed(t: BaseToken) {
    && t.Params() == []
    && match t.Type()
       case Undefined => false
       case Text => t.Name() == ""
       case Variable => IsVariableName(t.Raw()) && t.Name() == t.Raw()
       case FilteredVariable =>
         && TrimSpace(t.Raw()) == t.Raw() && ContainsChar(t.Raw(), '|') && !IsVariableName(t.Raw())
         && t.Name() == Pipeline.BaseName(t.Raw())
       case If => TrimSpace(t.Raw()) == t.Raw() && t.Name() == ""
       case Else => t.Raw() == "" && t.Name() == ""
       case IfEnd => t.Raw() == "" && t.Name() == ""
       case ShorthandIf =>
         TrimSpace(t.Raw()) == t.Raw() && Contains(t.Raw(), " ? ") && Contains(t.Raw(), " : ") && t.Name() == ""
  }

  /** A placeholder always yields a well-formed token, and it is a Text token exactly when
      its contents match no rule. */
  lemma {:induction false} CreateTokenWellFormed(contents: string)
    ensures WellFormed(CreateToken(DetectTokenType(contents), contents))
    ensures CreateToken(DetectTokenType(contents), contents).Type() == Text <==> DetectTokenType(contents) == Undefined
  {
    var s := TrimSpace(contents);
    DetectTrimmed(contents, s);
    TrimSpaceIdempotent(contents);
    TokenOfKind(contents, s, DetectTokenType(contents));
  }

  lemma {:induction false} TokenOfKind(contents: string, s: string, kind: TokenType)
    requires s == TrimSpace(contents) && TrimSpace(s) == s && kind == Classify(s)
    ensures WellFormed(CreateToken(kind, contents))
    ensures CreateToken(kind, contents).Type() == Text <==> kind == Undefined
  {
    match kind {
      case If => IfToken(contents, s);
      case Variable => VariableToken(contents, s);
      case FilteredVariable => FilteredToken(contents, s);
      case ShorthandIf => ShorthandToken(contents, s);
      case _ => FixedToken(kind, contents);
    }
  }

  lemma {:induction false} FixedToken(kind: TokenType, contents: string)
    requires kind in {Else, IfEnd, Text, Undefined}
    ensures WellFormed(CreateToken(kind, contents))
  {
    match kind {
      case Else => assert CreateToken(kind, contents) == BaseToken(Else, "", "", []);
      case IfEnd => assert CreateToken(kind, contents) == BaseToken(IfEnd, "", "", []);
      case Text => assert CreateToken(kind, contents) == TextToken(contents);
      case Undefined => assert CreateToken(kind, contents) == TextToken(contents);
      case _ =>
    }
  }

  lemma {:induction false} IfToken(contents: string, s: string)
    requires s == TrimSpace(contents) && HasPrefix(s, "if")
    ensures WellFormed(CreateToken(If, contents))
  {
    TrimSpaceIdempotent(s[2..]);
    assert CreateToken(If, contents) == BaseToken(If, TrimSpace(s[2..]), "", []);
  }

  lemma {:induction false} VariableToken(contents: string, s: string)
    requires s == TrimSpace(contents) && IsVariableName(s)
    ensures WellFormed(CreateToken(Variable, contents))
  {
    assert CreateToken(Variable, contents) == BaseToken(Variable, s, s, []);
  }

  lemma {:induction false} FilteredToken(contents: string, s: string)
    requires s == TrimSpace(contents) && TrimSpace(s) == s
    requires ContainsChar(s, '|') && !IsVariableName(s)
    ensures WellFormed(CreateToken(FilteredVariable, contents))
  {
    assert CreateToken(FilteredVariable, contents) == BaseToken(FilteredVariable, s, Pipeline.BaseName(s), []);
  }

  lemma {:induction false} ShorthandToken(contents: string, s: string)
    requires s == TrimSpace(contents) && TrimSpace(s) == s
    requires Contains(s, " ? ") && Contains(s, " : ")
    ensures WellFormed(CreateToken(ShorthandIf, contents))
  {
    assert CreateToken(ShorthandIf, contents) == BaseToken(ShorthandIf, s, "", []);
  }

  // ---------------------------------------------------------------------------
  // The scan
  // ---------------------------------------------------------------------------

  /** `skipWhitespace`: the first index at or after i that is not white space in the sense
      of unicode.IsSpace applied to a single byte. */
  function SkipWhitespace(t: string, i: nat): (r: nat)
    requires i <= |t|
    ensures i <= r <= |t|
    ensures forall k :: i <= k < r ==> IsSpaceByte(t[k])
    ensures r == |t| || !IsSpaceByte(t[r])
    decreases |t| - i
  {
    if i < |t| && IsSpaceByte(t[i]) then SkipWhitespace(t, i + 1) else i
  }

  predicate OpensAt(t: string, i: nat) { i + 1 < |t| && t[i] == '{' && t[i + 1] == '{' }
  predicate ClosesAt(t: string, i: nat) { i + 1 < |t| && t[i] == '}' && t[i + 1] == '}' }

  /** Text collected so far, flushed as a Text token when non-empty. */
  function Flush(tokens: seq<BaseToken>, buf: string): seq<BaseToken> {
    if |buf| > 0 then tokens + [TextToken(buf)] else tokens
  }

  /** The loop of `Parse` from index i. `start` is the index where the open placeholder's
      contents begin, or None outside a placeholder (Go's `startIndex == -1`). A `}}` met
      outside a placeholder makes Go slice `template[-1:i]` and panic. */
  function Scan(t: string, i: nat, start: Option<nat>, buf: string, tokens: seq<BaseToken>): (r: Result<seq<BaseToken>, Error>)
    requires i <= |t|
    requires start.Some? ==> start.value <= i
    decreases |t| - i
  {
    if i == |t| then Ok(Flush(tokens, buf))
    else if OpensAt(t, i) then
      var j := SkipWhitespace(t, i + 2);
      Scan(t, j, Some(j), "", Flush(tokens, buf))
    else if ClosesAt(t, i) then
      if start.None? then Err(Crash("slice bounds out of range [-1:]"))
      else
        var contents := t[start.value..i];
        Scan(t, i + 2, None, buf, tokens + [CreateToken(DetectTokenType(contents), contents)])
    else if start.None? then Scan(t, i + 1, start, buf + [t[i]], tokens)
    else Scan(t, i + 1, start, buf, tokens)
  }

  /** `Parse`: a template without any brace is a single Text token (even when empty). */
  function Parse(t: string): (r: Result<seq<BaseToken>, Error>)
    ensures r.Ok? ==> AllWellFormed(r.value)
    ensures r.Err? ==> r.error.Crash? && Contains(t, "}}")
  {
    if !ContainsChar(t, '{') && !ContainsChar(t, '}') then Ok([TextToken(t)])
    else
      ScanWellFormed(t, 0, None, "", []);
      Scan(t, 0, None, "", [])
  }

  predicate AllWellFormed(tokens: seq<BaseToken>) {
    forall k :: 0 <= k < |tokens| ==> WellFormed(tokens[k])
  }

  lemma {:induction false} AppendWellFormed(tokens: seq<BaseToken>, tok: BaseToken)
    requires AllWellFormed(tokens) && WellFormed(tok)
    ensures AllWellFormed(tokens + [tok])
  {
    assert forall k :: 0 <= k < |tokens| ==> (tokens + [tok])[k] == tokens[k];
  }

  lemma {:induction false} FlushWellFormed(tokens: seq<BaseToken>, buf: string)
    requires AllWellFormed(tokens)
    ensures AllWellFormed(Flush(tokens, buf))
  {
    if |buf| > 0 {
      AppendWellFormed(tokens, TextToken(buf));
    }
  }

  /** Every token the scan emits is well-formed, and it fails only at a `}}`. */
  lemma {:induction false} ScanWellFormed(t: string, i: nat, start: Option<nat>, buf: string, tokens: seq<BaseToken>)
    requires i <= |t|
    requires start.Some? ==> start.value <= i
    requires AllWellFormed(tokens)
    ensures Scan(t, i, start, buf, tokens).Ok? ==> AllWellFormed(Scan(t, i, start, buf, tokens).value)
    ensures Scan(t, i, start, buf, tokens).Err? ==> Scan(t, i, start, buf, tokens).error.Crash? && Contains(t, "}}")
    decreases |t| - i
  {
    if i == |t| {
      FlushWellFormed(tokens, buf);
    } else if OpensAt(t, i) {
      var j := SkipWhitespace(t, i + 2);
      FlushWellFormed(tokens, buf);
      ScanWellFormed(t, j, Some(j), "", Flush(tokens, buf));
    } else if ClosesAt(t, i) {
      if start.None? {
        assert OccursAt(t, "}}", i) by {
          assert t[i..i + 2] == "}}";
        }
      } else {
        var contents := t[start.value..i];
        var tok := CreateToken(DetectTokenType(contents), contents);
        assert AllWellFormed(tokens + [tok]) by {
          CreateTokenWellFormed(contents);
          AppendWellFormed(tokens, tok);
        }
        ScanWellFormed(t, i + 2, None, buf, tokens + [tok]);
        assert Scan(t, i, start, buf, tokens) == Scan(t, i + 2, None, buf, tokens + [tok]);
      }
    } else if start.None? {
      ScanWellFormed(t, i + 1, start, buf + [t[i]], tokens);
    } else {
      ScanWellFormed(t, i + 1, start, buf, tokens);
    }
  }

  // ---------------------------------------------------------------------------
  // Plain text passes through
  // ---------------------------------------------------------------------------

  /** Neither delimiter occurs anywhere in the template. */
  predicate NoDelimiters(t: string) {
    forall i :: 0 <= i < |t| ==> !OpensAt(t, i) && !ClosesAt(t, i)
  }

  lemma {:induction false} ScanPlain(t: string, i: nat)
    requires i <= |t| && NoDelimiters(t)
    ensures Scan(t, i, None, t[..i], []) == Ok(Flush([], t))
    decreases |t| - i
  {
    if i < |t| {
      assert t[..i] + [t[i]] == t[..i + 1];
      ScanPlain(t, i + 1);
    } else {
      assert t[..i] == t;
    }
  }

  /** A template in which neither `{{` nor `}}` occurs is one Text token carrying it
      unchanged: stray single braces are ordinary text. */
  lemma {:induction false} PlainTextIsOneToken(t: string)
    requires NoDelimiters(t)
    ensures Parse(t) == Ok([TextToken(t)])
  {
    if ContainsChar(t, '{') || ContainsChar(t, '}') {
      ScanPlain(t, 0);
      assert t[..0] == "";
      assert |t| > 0;
      assert Flush([], t) == [TextToken(t)];
      assert Parse(t) == Scan(t, 0, None, "", []);
    }
  }

  // ---------------------------------------------------------------------------
  // A placeholder followed by text
  // ---------------------------------------------------------------------------

  predicate NoBraces(s: string) {
    forall k :: 0 <= k < |s| ==> s[k] != '{' && s[k] != '}'
  }

  /** Inside a placeholder the scan steps over characters that are not braces. */
  lemma {:induction false} ScanInside(t: string, i: nat, e: nat, start: nat, buf: string, tokens: seq<BaseToken>)
    requires start <= i <= e <= |t|
    requires forall k :: i <= k < e ==> t[k] != '{' && t[k] != '}'
    ensures Scan(t, i, Some(start), buf, tokens) == Scan(t, e, Some(start), buf, tokens)
    decreases e - i
  {
    if i < e {
      ScanInside(t, i + 1, e, start, buf, tokens);
    }
  }

  /** Outside a placeholder the scan collects characters that are not braces as text. */
  lemma {:induction false} ScanText(t: string, i: nat, buf: string, tokens: seq<BaseToken>)
    requires i <= |t| && NoBraces(t[i..])
    ensures Scan(t, i, None, buf, tokens) == Ok(Flush(tokens, buf + t[i..]))
    decreases |t| - i
  {
    if i < |t| {
      assert t[i..][0] == t[i];
      assert t[i + 1..] == t[i..][1..];
      assert buf + t[i..] == (buf + [t[i]]) + t[i + 1..];
      ScanText(t, i + 1, buf + [t[i]], tokens);
    } else {
      assert buf + t[i..] == buf;
    }
  }

  /** Outside a placeholder the scan collects a brace-free stretch as text. */
  lemma {:induction false} ScanTextUpTo(t: string, i: nat, e: nat, buf: string, tokens: seq<BaseToken>)
    requires i <= e <= |t| && NoBraces(t[i..e])
    ensures Scan(t, i, None, buf, tokens) == Scan(t, e, None, buf + t[i..e], tokens)
    decreases e - i
  {
    if i < e {
      assert t[i..e][0] == t[i];
      assert t[i + 1..e] == t[i..e][1..];
      assert buf + t[i..e] == (buf + [t[i]]) + t[i + 1..e];
      ScanTextUpTo(t, i + 1, e, buf + [t[i]], tokens);
    } else {
      assert buf + t[i..e] == buf;
    }
  }

  /** Inside a placeholder that is never closed the scan adds no token: the text after an
      unmatched `{{` is dropped. */
  lemma {:induction false} ScanUnclosed(t: string, i: nat, start: nat, tokens: seq<BaseToken>)
    requires start <= i <= |t|
    requires forall k :: i <= k < |t| ==> !ClosesAt(t, k)
    ensures Scan(t, i, Some(start), "", tokens) == Ok(tokens)
    decreases |t| - i
  {
    if i < |t| {
      if OpensAt(t, i) {
        var j := SkipWhitespace(t, i + 2);
        ScanUnclosed(t, j, j, tokens);
      } else {
        ScanUnclosed(t, i + 1, start, tokens);
      }
    }
  }

  /** A text that does not contain `}}` has no `}` followed by another. */
  lemma {:induction false} NoCloserIn(rest: string)
    requires !Contains(rest, "}}")
    ensures forall k :: 0 <= k && k + 1 < |rest| ==> !(rest[k] == '}' && rest[k + 1] == '}')
  {
    forall k | 0 <= k && k + 1 < |rest| ensures !(rest[k] == '}' && rest[k + 1] == '}') {
      assert !OccursAt(rest, "}}", k);
      assert rest[k..k + 2] == [rest[k], rest[k + 1]];
    }
  }

  /** Text before an unmatched `{{` is the only token; everything after it is lost. */
  lemma {:induction false} UnclosedPlaceholderDropped(p: string, rest: string)
    requires NoBraces(p) && !Contains(rest, "}}")
    ensures Parse(p + "{{" + rest) == Ok(Flush([], p))
  {
    var t := p + "{{" + rest;
    var o := |p|;
    assert t[o] == '{';
    assert ContainsChar(t, '{');
    assert t[..o] == p;
    assert NoBraces(t[0..o]) by { assert t[0..o] == p; }
    ScanTextUpTo(t, 0, o, "", []);
    assert "" + p == p;
    assert OpensAt(t, o);
    var j := SkipWhitespace(t, o + 2);
    assert forall k :: j <= k < |t| ==> !ClosesAt(t, k) by {
      NoCloserIn(rest);
      forall k | j <= k < |t| ensures !ClosesAt(t, k) {
        if k + 1 < |t| {
          assert t[k] == rest[k - o - 2] && t[k + 1] == rest[k - o - 1];
        }
      }
    }
    ScanUnclosed(t, j, j, Flush([], p));
  }

  /** A variable name that no keyword rule claims is classified as a Variable. */
  lemma {:induction false} NameIsVariable(n: string)
    requires IsVariableName(n) && !HasPrefix(n, "if") && !HasPrefix(n, "else")
    ensures DetectTokenType(n) == Variable
    ensures CreateToken(Variable, n) == BaseToken(Variable, n, n, [])
  {
    NameUntrimmed(n);
    ClassifyName(n);
    DetectTrimmed(n, n);
  }

  /** A variable name has no white space to trim. */
  lemma {:induction false} NameUntrimmed(n: string)
    requires IsVariableName(n)
    ensures TrimSpace(n) == n
  {
    TrimSpaceNoSpace(n);
  }

  /** The classification reads the contents only through their trimmed text. */
  lemma {:induction false} DetectTrimmed(contents: string, s: string)
    requires TrimSpace(contents) == s
    ensures DetectTokenType(contents) == Classify(s)
  {
  }

  lemma {:induction false} ClassifyName(n: string)
    requires IsVariableName(n) && !HasPrefix(n, "if") && !HasPrefix(n, "else")
    ensures Classify(n) == Variable
  {
    assert !HasPrefix(n, "/if") by { assert n[0] != '/'; }
    NameLacks(n, " ? ");
  }

  /** A variable name contains no text that starts with a character names cannot hold. */
  lemma {:induction false} NameLacks(n: string, sub: string)
    requires IsVariableName(n) && |sub| > 0 && !IsNameChar(sub[0])
    ensures !Contains(n, sub)
  {
    forall j | 0 <= j <= |n| ensures !OccursAt(n, sub, j) {
      if j + |sub| <= |n| {
        assert n[j..j + |sub|][0] == n[j];
        assert IsNameChar(n[j]);
      }
    }
  }

  /** A text without the first character of `sub` does not contain `sub`. */
  lemma {:induction false} LacksFirst(s: string, sub: string)
    requires |sub| > 0 && sub[0] !in s
    ensures !Contains(s, sub)
  {
    forall j | 0 <= j <= |s| ensures !OccursAt(s, sub, j) {
      if j + |sub| <= |s| {
        assert s[j..j + |sub|][0] == s[j];
      }
    }
  }

  lemma {:induction false} ScanOpens(t: string)
    requires OpensAt(t, 0) && 2 < |t| && !IsSpaceByte(t[2])
    ensures Scan(t, 0, None, "", []) == Scan(t, 2, Some(2), "", [])
  {
    assert SkipWhitespace(t, 2) == 2;
  }

  lemma {:induction false} ScanCloses(t: string, e: nat, tok: BaseToken)
    requires 2 <= e && ClosesAt(t, e)
    requires CreateToken(DetectTokenType(t[2..e]), t[2..e]) == tok
    ensures Scan(t, e, Some(2), "", []) == Scan(t, e + 2, None, "", [tok])
  {
    assert !OpensAt(t, e);
    assert [] + [tok] == [tok];
  }

  /** `{{name}}` followed by brace-free text is one Variable token and, when the text is
      non-empty, one Text token. */
  lemma {:induction false} PlaceholderThenText(n: string, text: string)
    requires IsVariableName(n) && !HasPrefix(n, "if") && !HasPrefix(n, "else") && NoBraces(text)
    ensures Parse("{{" + n + "}}" + text) ==
      Ok([BaseToken(Variable, n, n, [])] + (if |text| > 0 then [TextToken(text)] else []))
  {
    var t := "{{" + n + "}}" + text;
    var e := 2 + |n|;
    assert t[0] == '{' && t[1] == '{' && t[e] == '}' && t[e + 1] == '}';
    assert forall k :: 2 <= k < e ==> t[k] == n[k - 2];
    assert t[2..e] == n;
    assert t[e + 2..] == text;
    ParsePlaceholder(t, n, text);
  }

  lemma {:induction false} ParsePlaceholder(t: string, n: string, text: string)
    requires IsVariableName(n) && !HasPrefix(n, "if") && !HasPrefix(n, "else") && NoBraces(text)
    requires |t| == |n| + 4 + |text| && OpensAt(t, 0) && ClosesAt(t, |n| + 2)
    requires t[2..|n| + 2] == n && t[|n| + 4..] == text
    ensures Parse(t) == Ok([BaseToken(Variable, n, n, [])] + (if |text| > 0 then [TextToken(text)] else []))
  {
    var tok := BaseToken(Variable, n, n, []);
    ScanPlaceholder(t, n);
    ScanText(t, |n| + 4, "", [tok]);
    assert "" + text == text;
    assert Flush([tok], text) == [tok] + (if |text| > 0 then [TextToken(text)] else []);
    assert ContainsChar(t, '{') by { assert t[0] == '{'; }
    assert Parse(t) == Scan(t, 0, None, "", []);
  }

  /** The opener, the name and the closer leave the scan after the closer with one token. */
  lemma {:induction false} ScanPlaceholder(t: string, n: string)
    requires IsVariableName(n) && !HasPrefix(n, "if") && !HasPrefix(n, "else")
    requires |n| + 4 <= |t| && OpensAt(t, 0) && ClosesAt(t, |n| + 2) && t[2..|n| + 2] == n
    ensures Scan(t, 0, None, "", []) == Scan(t, |n| + 4, None, "", [BaseToken(Variable, n, n, [])])
  {
    var e := 2 + |n|;
    NameIsVariable(n);
    NameHasNoBraces(t, n);
    ScanOpens(t);
    ScanInside(t, 2, e, 2, "", []);
    ScanCloses(t, e, BaseToken(Variable, n, n, []));
  }

  /** A name in a placeholder holds no brace, and it does not start with white space. */
  lemma {:induction false} NameHasNoBraces(t: string, n: string)
    requires IsVariableName(n) && |n| + 2 <= |t| && t[2..|n| + 2] == n
    ensures forall k :: 2 <= k < |n| + 2 ==> t[k] != '{' && t[k] != '}'
    ensures 2 < |t| && !IsSpaceByte(t[2])
  {
    assert t[2] == n[0];
    forall k | 2 <= k < |n| + 2 ensures t[k] != '{' && t[k] != '}' {
      assert t[k] == n[k - 2];
      assert k == 2 || IsNameChar(n[k - 2]);
    }
  }

  /** A template that is one placeholder `{{ w }}` is one token, made from the contents
      after the skipped opening space. */
  lemma {:induction false} SpacedPlaceholder(w: string)
    requires NoBraces(w) && |w| > 0 && !IsSpaceByte(w[0])
    ensures Parse("{{ " + w + " }}") == Ok([CreateToken(DetectTokenType(w + " "), w + " ")])
  {
    var t := "{{ " + w + " }}";
    var e := |w| + 4;
    assert t[0] == '{' && t[1] == '{' && t[2] == ' ' && t[3] == w[0];
    assert t[e] == '}' && t[e + 1] == '}';
    calc {
      Parse(t);
      { assert ContainsChar(t, '{'); }
      Scan(t, 0, None, "", []);
      { ScanSpacedOpen(t); }
      Scan(t, 3, Some(3), "", []);
      { SpacedContents(t, w); ScanInside(t, 3, e, 3, "", []); }
      Scan(t, e, Some(3), "", []);
      { SpacedContents(t, w); ScanClosesLast(t, 3, e, w + " "); }
      Ok([CreateToken(DetectTokenType(w + " "), w + " ")]);
    }
  }

  /** The contents of `{{ w }}` after the opening space: w and the closing space. */
  lemma {:induction false} SpacedContents(t: string, w: string)
    requires t == "{{ " + w + " }}" && NoBraces(w)
    ensures t[3..|w| + 4] == w + " "
    ensures forall k :: 3 <= k < |w| + 4 ==> t[k] != '{' && t[k] != '}'
  {
    forall k | 3 <= k < |w| + 4 ensures t[k] != '{' && t[k] != '}' {
      if k < 3 + |w| {
        assert t[k] == w[k - 3];
      }
    }
  }

  /** An opener followed by one space starts the contents after the space. */
  lemma {:induction false} ScanSpacedOpen(t: string)
    requires OpensAt(t, 0) && 3 < |t| && IsSpaceByte(t[2]) && !IsSpaceByte(t[3])
    ensures Scan(t, 0, None, "", []) == Scan(t, 3, Some(3), "", [])
  {
    assert SkipWhitespace(t, 2) == 3 by {
      assert SkipWhitespace(t, 3) == 3;
    }
  }

  /** A closer that ends the template closes the only placeholder: one token. */
  lemma {:induction false} ScanClosesLast(t: string, start: nat, e: nat, contents: string)
    requires start <= e && e + 2 == |t| && ClosesAt(t, e) && t[start..e] == contents
    ensures Scan(t, e, Some(start), "", []) == Ok([CreateToken(DetectTokenType(contents), contents)])
  {
    var tok := CreateToken(DetectTokenType(contents), contents);
    assert !OpensAt(t, e);
    assert [] + [tok] == [tok];
  }

  /** A filtered placeholder `{{ w }}` is one FilteredVariable token on the chain text w,
      whose lookup name is the chain's base. */
  lemma {:induction false} FilteredPlaceholder(w: string)
    requires NoBraces(w) && |w| > 0 && !IsSpaceByte(w[0]) && !IsSpace(w[|w| - 1])
    requires Classify(w) == FilteredVariable
    ensures Parse("{{ " + w + " }}") == Ok([BaseToken(FilteredVariable, w, Pipeline.BaseName(w), [])])
  {
    SpacedPlaceholder(w);
    TrimSpaceOfRightPadded(w);
    DetectTrimmed(w + " ", w);
  }

  // ---------------------------------------------------------------------------
  // Worked cases
  // ---------------------------------------------------------------------------

  /** A `}}` outside any placeholder is the Go slice panic. */
  lemma {:induction false} StrayCloserCrashes()
    ensures Parse("a}}b").Err?
  {
    var t := "a}}b";
    assert ContainsChar(t, '}') by { assert t[1] == '}'; }
    assert Scan(t, 0, None, "", []) == Scan(t, 1, None, "a", []);
  }
}
