/**
 The filter-pipeline sub-parser of render.go: `name | f:a,'b' | g` becomes the variable
 name `name` and the calls `f('a' resolved, "b")`, `g()`.
 */
module Pipeline {
  import opened Wrappers
  import opened Strings
  import opened Values

  /** A filter argument: a literal value, or a variable looked up at render time
      (Go's `Arg{Value, Var}` with `Var == true` and a string `Value`). */
  datatype Arg = Literal(value: Value) | VarRef(name: string)

  /** One filter call of a pipeline. */
  datatype Func = Func(name: string, args: seq<Arg>)

  // ---------------------------------------------------------------------------
  // Quote-respecting split
  // ---------------------------------------------------------------------------

  /** Whether the scanner is inside a quoted span, and which quote character opened it. */
  datatype QuoteState = Outside | Inside(quote: char)

  predicate IsQuoteChar(c: char) { c == '"' || c == '\'' }

  /** The number of backslashes immediately before index i of s. */
  function BackslashesBefore(s: string, i: nat): (n: nat)
    requires i <= |s|
    ensures n <= i
  {
    if i == 0 || s[i - 1] != '\\' then 0 else 1 + BackslashesBefore(s, i - 1)
  }

  /** One step of the quote tracker at index i: a span opens on either quote character
      and closes only on the same character preceded by an even number of backslashes. */
  function Step(s: string, i: nat, st: QuoteState): QuoteState
    requires i < |s|
  {
    match st
    case Inside(q) => if s[i] == q && BackslashesBefore(s, i) % 2 == 0 then Outside else st
    case Outside => if IsQuoteChar(s[i]) then Inside(s[i]) else Outside
  }

  /** The untrimmed pieces `splitRespectingQuotes` builds from index i on, given the
      quote state and the piece collected so far. The last piece is always present,
      possibly empty. */
  function RawPieces(s: string, sep: string, i: nat, st: QuoteState, cur: string): (r: seq<string>)
    requires |sep| > 0 && i <= |s|
    ensures |r| >= 1
    decreases |s| - i
  {
    if i == |s| then [cur]
    else if st.Outside? && !IsQuoteChar(s[i]) && HasPrefix(s[i..], sep) then
      [cur] + RawPieces(s, sep, i + |sep|, Outside, "")
    else RawPieces(s, sep, i + 1, Step(s, i, st), cur + [s[i]])
  }

  function RawSplit(s: string, sep: string): (r: seq<string>)
    requires |sep| > 0
    ensures |r| >= 1
  {
    RawPieces(s, sep, 0, Outside, "")
  }

  /** `splitRespectingQuotes(s, sep)`: split on `sep` outside quoted spans, keep the quote
      characters, trim every piece, and drop a last piece whose untrimmed text is empty.
      An empty `sep` would make the Go loop spin forever, hence the precondition. */
  function SplitRespectingQuotes(s: string, sep: string): (r: seq<string>)
    requires |sep| > 0
    ensures |s| == 0 ==> r == []
    ensures |s| > 0 ==> |r| >= 1
    ensures forall k :: 0 <= k < |r| ==> TrimSpace(r[k]) == r[k]
  {
    var raw := RawSplit(s, sep);
    var kept := if raw[|raw| - 1] == "" then raw[..|raw| - 1] else raw;
    RawSplitNonEmpty(s, sep);
    var r := seq(|kept|, k requires 0 <= k < |kept| => TrimSpace(kept[k]));
    assert forall k :: 0 <= k < |r| ==> TrimSpace(r[k]) == r[k] by {
      forall k | 0 <= k < |r| ensures TrimSpace(r[k]) == r[k] {
        TrimSpaceIdempotent(kept[k]);
      }
    }
    r
  }

  /** The pieces of the split are the untrimmed pieces, trimmed, without an empty last one. */
  lemma {:induction false} SplitPieces(s: string, sep: string)
    requires |sep| > 0
    ensures var raw := RawSplit(s, sep); var r := SplitRespectingQuotes(s, sep);
      && |r| == (if raw[|raw| - 1] == "" then |raw| - 1 else |raw|)
      && forall k :: 0 <= k < |r| ==> r[k] == TrimSpace(raw[k])
  {
    var raw := RawSplit(s, sep);
    var r := SplitRespectingQuotes(s, sep);
    var kept := if raw[|raw| - 1] == "" then raw[..|raw| - 1] else raw;
    assert |r| == |kept|;
    forall k | 0 <= k < |r| ensures r[k] == TrimSpace(raw[k]) {
      assert r[k] == TrimSpace(kept[k]);
    }
  }

  /** A non-empty input never yields only one empty piece. */
  lemma {:induction false} RawSplitNonEmpty(s: string, sep: string)
    requires |sep| > 0
    ensures var raw := RawSplit(s, sep); |s| > 0 ==> |raw| >= 2 || raw[0] != ""
  {
    var raw := RawSplit(s, sep);
    if |s| == 0 {
    } else if !IsQuoteChar(s[0]) && HasPrefix(s, sep) {
      assert s[0..] == s;
      assert |raw| >= 2;
    } else {
      assert "" + [s[0]] == [s[0]];
      assert raw == RawPieces(s, sep, 1, Step(s, 0, Outside), [s[0]]);
      RawPiecesKeepsPrefix(s, sep, 1, Step(s, 0, Outside), [s[0]]);
      assert |raw[0]| >= 1;
    }
  }

  /** The first piece extends the piece collected so far. */
  lemma {:induction false} RawPiecesKeepsPrefix(s: string, sep: string, i: nat, st: QuoteState, cur: string)
    requires |sep| > 0 && i <= |s|
    ensures HasPrefix(RawPieces(s, sep, i, st, cur)[0], cur)
    decreases |s| - i
  {
    if i == |s| {
    } else if st.Outside? && !IsQuoteChar(s[i]) && HasPrefix(s[i..], sep) {
    } else {
      RawPiecesKeepsPrefix(s, sep, i + 1, Step(s, i, st), cur + [s[i]]);
      var first := RawPieces(s, sep, i + 1, Step(s, i, st), cur + [s[i]])[0];
      assert first[..|cur| + 1] == cur + [s[i]];
      assert first[..|cur|] == (cur + [s[i]])[..|cur|];
    }
  }

  /** Splitting loses no character: the untrimmed pieces joined with the separator give
      back the input. */
  lemma {:induction false} RawPiecesJoin(s: string, sep: string, i: nat, st: QuoteState, cur: string)
    requires |sep| > 0 && i <= |s|
    ensures Join(RawPieces(s, sep, i, st, cur), sep) == cur + s[i..]
    decreases |s| - i
  {
    if i == |s| {
    } else if st.Outside? && !IsQuoteChar(s[i]) && HasPrefix(s[i..], sep) {
      RawPiecesJoin(s, sep, i + |sep|, Outside, "");
      var rest := RawPieces(s, sep, i + |sep|, Outside, "");
      assert RawPieces(s, sep, i, st, cur) == [cur] + rest;
      assert s[i..] == sep + s[i + |sep|..];
    } else {
      RawPiecesJoin(s, sep, i + 1, Step(s, i, st), cur + [s[i]]);
      assert s[i..] == [s[i]] + s[i + 1..];
    }
  }

  lemma {:induction false} SplitLossless(s: string, sep: string)
    requires |sep| > 0
    ensures Join(RawSplit(s, sep), sep) == s
  {
    RawPiecesJoin(s, sep, 0, Outside, "");
  }

  // ---------------------------------------------------------------------------
  // Quoted spans are never split (single-character separators, as the engine uses)
  // ---------------------------------------------------------------------------

  /** The quote state before index j of a piece scanned on its own from Outside. */
  function StateBefore(p: string, j: nat): QuoteState
    requires j <= |p|
  {
    if j == 0 then Outside else Step(p, j - 1, StateBefore(p, j - 1))
  }

  /** Every separator character inside the piece sits in a quoted span. */
  ghost predicate SeparatorsQuoted(p: string, c: char) {
    forall j :: 0 <= j < |p| && p[j] == c ==> StateBefore(p, j).Inside?
  }

  /** Counting backslashes before i within the suffix of s from `start` gives the same
      count as in s, when the character before `start` is not a backslash. */
  lemma {:induction false} BackslashesInSlice(s: string, start: nat, i: nat)
    requires start <= i <= |s|
    requires start == 0 || s[start - 1] != '\\'
    ensures BackslashesBefore(s[start..i], i - start) == BackslashesBefore(s, i)
    decreases i
  {
    if i == start {
    } else if s[i - 1] != '\\' {
      assert s[start..i][i - start - 1] == s[i - 1];
    } else {
      BackslashesInSlice(s, start, i - 1);
      assert s[start..i][i - start - 1] == s[i - 1];
      assert s[start..i][..i - 1 - start] == s[start..i - 1];
      BackslashesPrefix(s[start..i], i - 1 - start);
    }
  }

  /** Backslash counts only look backwards, so cutting the string after index i changes nothing. */
  lemma {:induction false} BackslashesPrefix(s: string, i: nat)
    requires i <= |s|
    ensures BackslashesBefore(s[..i], i) == BackslashesBefore(s, i)
    decreases i
  {
    if i > 0 && s[i - 1] == '\\' {
      assert s[..i][..i - 1] == s[..i - 1];
      BackslashesPrefix(s, i - 1);
      BackslashesPrefix(s[..i], i - 1);
    }
  }

  /** Extending a piece by one character does not change the state before its old positions. */
  lemma {:induction false} StateBeforeExtend(p: string, c: char, j: nat)
    requires j <= |p|
    ensures StateBefore(p + [c], j) == StateBefore(p, j)
    decreases j
  {
    if j > 0 {
      StateBeforeExtend(p, c, j - 1);
      assert (p + [c])[..j] == p[..j];
      BackslashesPrefix(p + [c], j - 1);
      BackslashesPrefix(p, j - 1);
      assert (p + [c])[..j - 1] == p[..j - 1];
    }
  }

  /** The invariant of the scan: the piece being collected is the text since the last cut,
      the scanner's state is the state of that piece scanned alone, and every separator in
      it is quoted. */
  ghost predicate ScanInv(s: string, c: char, i: nat, st: QuoteState, cur: string) {
    && i <= |s|
    && |cur| <= i
    && cur == s[i - |cur|..i]
    && (i - |cur| == 0 || s[i - |cur| - 1] == c)
    && st == StateBefore(cur, |cur|)
    && SeparatorsQuoted(cur, c)
  }

  /** Scanning one more character that is not a cut keeps the invariant. */
  lemma {:induction false} ScanInvStep(s: string, c: char, i: nat, st: QuoteState, cur: string)
    requires c != '\\' && !IsQuoteChar(c)
    requires ScanInv(s, c, i, st, cur) && i < |s|
    requires !(st.Outside? && !IsQuoteChar(s[i]) && HasPrefix(s[i..], [c]))
    ensures ScanInv(s, c, i + 1, Step(s, i, st), cur + [s[i]])
  {
    var cur' := cur + [s[i]];
    var start := i - |cur|;
    assert cur' == s[start..i + 1];
    // the step on s agrees with the step on the piece
    BackslashesInSlice(s, start, i);
    assert s[start..i] == cur;
    assert cur'[..|cur|] == cur;
    BackslashesPrefix(cur', |cur|);
    assert Step(s, i, st) == Step(cur', |cur|, st);
    StateBeforeExtend(cur, s[i], |cur|);
    assert StateBefore(cur', |cur'|) == Step(s, i, st);
    forall j | 0 <= j < |cur'| && cur'[j] == c
      ensures StateBefore(cur', j).Inside?
    {
      StateBeforeExtend(cur, s[i], j);
      if j == |cur| {
        assert s[i] == c;
        assert s[i..][..1] == [c];
      }
    }
  }

  /** Every piece keeps its separators quoted, and every piece but the last is balanced. */
  ghost predicate PiecesQuoted(r: seq<string>, c: char) {
    && (forall k :: 0 <= k < |r| ==> SeparatorsQuoted(r[k], c))
    && (forall k :: 0 <= k < |r| - 1 ==> StateBefore(r[k], |r[k]|) == Outside)
  }

  lemma {:induction false} PiecesQuotedCons(cur: string, rest: seq<string>, c: char)
    requires SeparatorsQuoted(cur, c) && StateBefore(cur, |cur|) == Outside
    requires PiecesQuoted(rest, c)
    ensures PiecesQuoted([cur] + rest, c)
  {
    var r := [cur] + rest;
    assert forall k :: 1 <= k < |r| ==> r[k] == rest[k - 1];
  }

  /** A cut at an unquoted separator closes the piece and starts the next one afresh. */
  lemma {:induction false} ScanInvCut(s: string, c: char, i: nat, st: QuoteState, cur: string)
    requires ScanInv(s, c, i, st, cur) && i < |s|
    requires st.Outside? && HasPrefix(s[i..], [c])
    ensures ScanInv(s, c, i + 1, Outside, "")
    ensures SeparatorsQuoted(cur, c) && StateBefore(cur, |cur|) == Outside
  {
    assert s[i..][..1] == [s[i]];
    assert s[i] == c;
  }

  lemma {:induction false} RawPiecesQuoted(s: string, c: char, i: nat, st: QuoteState, cur: string)
    requires c != '\\' && !IsQuoteChar(c)
    requires ScanInv(s, c, i, st, cur)
    ensures PiecesQuoted(RawPieces(s, [c], i, st, cur), c)
    decreases |s| - i, 1
  {
    if i == |s| {
      assert RawPieces(s, [c], i, st, cur) == [cur];
    } else if st.Outside? && !IsQuoteChar(s[i]) && HasPrefix(s[i..], [c]) {
      RawPiecesQuotedCut(s, c, i, st, cur);
    } else {
      ScanInvStep(s, c, i, st, cur);
      assert RawPieces(s, [c], i, st, cur) == RawPieces(s, [c], i + 1, Step(s, i, st), cur + [s[i]]);
      RawPiecesQuoted(s, c, i + 1, Step(s, i, st), cur + [s[i]]);
    }
  }

  /** The cut case of RawPiecesQuoted: the closed piece joins the pieces after it. */
  lemma {:induction false} RawPiecesQuotedCut(s: string, c: char, i: nat, st: QuoteState, cur: string)
    requires c != '\\' && !IsQuoteChar(c)
    requires ScanInv(s, c, i, st, cur) && i < |s|
    requires st.Outside? && !IsQuoteChar(s[i]) && HasPrefix(s[i..], [c])
    ensures PiecesQuoted(RawPieces(s, [c], i, st, cur), c)
    decreases |s| - i, 0
  {
    ScanInvCut(s, c, i, st, cur);
    var rest := RawPieces(s, [c], i + 1, Outside, "");
    assert RawPieces(s, [c], i, st, cur) == [cur] + rest;
    RawPiecesQuoted(s, c, i + 1, Outside, "");
    PiecesQuotedCons(cur, rest, c);
  }

  /** With a one-character separator that is neither a quote nor a backslash (the engine's
      `|` and `,`), every separator left inside a piece lies in a quoted span, and every
      piece before the last closes all the spans it opens. With `SplitLossless` this pins
      down the split exactly: a cut happens at every unquoted separator and nowhere else. */
  lemma {:induction false} SplitKeepsQuotedSpans(s: string, c: char)
    requires c != '\\' && !IsQuoteChar(c)
    ensures PiecesQuoted(RawSplit(s, [c]), c)
  {
    assert ScanInv(s, c, 0, Outside, "");
    RawPiecesQuoted(s, c, 0, Outside, "");
  }

  // ---------------------------------------------------------------------------
  // Argument classification
  // ---------------------------------------------------------------------------

  /** `isQuotedWith(str, q)`: starts and ends with q. A lone q satisfies it. */
  predicate IsQuotedWith(str: string, q: char) {
    HasPrefix(str, [q]) && HasSuffix(str, [q])
  }

  /** `unquote(str, q)`: strip the surrounding quotes and turn every `\q` into `q`.
      A lone quote character makes Go slice `str[1:0]` and panic. */
  function Unquote(str: string, q: char): (r: Result<string, Error>)
    ensures r.Err? <==> str == [q]
    ensures r.Ok? && IsQuotedWith(str, q) ==> |r.value| <= |str| - 2
    ensures r.Ok? && IsQuotedWith(str, q) ==> r.value == ReplaceAll(str[1..|str| - 1], ['\\', q], [q])
    ensures !IsQuotedWith(str, q) ==> r == Ok(str)
  {
    if IsQuotedWith(str, q) then
      if |str| < 2 then Err(Crash("slice bounds out of range [1:0]"))
      else Ok(ReplaceAllShrinks(str[1..|str| - 1], ['\\', q], [q]))
    else Ok(str)
  }

  /** How a template writes the text `s` between quotes `q`: every `q` inside gets a
      backslash in front of it. */
  function Escape(s: string, q: char): (r: string)
    ensures |r| >= |s|
  {
    if |s| == 0 then "" else (if s[0] == q then ['\\', q] else [s[0]]) + Escape(s[1..], q)
  }

  /** An escaped text never starts with the quote character. */
  lemma {:induction false} EscapeHead(s: string, q: char)
    requires q != '\\'
    ensures |Escape(s, q)| > 0 ==> Escape(s, q)[0] != q
  {
  }

  /** Unescaping undoes escaping: `\q` becomes `q` again, and a backslash the text holds
      stays, even right before an escaped quote. */
  lemma {:induction false} EscapeUnescape(s: string, q: char)
    requires q != '\\'
    ensures ReplaceAll(Escape(s, q), ['\\', q], [q]) == s
    decreases |s|
  {
    var pat := ['\\', q];
    if |s| == 0 {
      assert !OccursAt(Escape(s, q), pat, 0);
    } else {
      EscapeUnescape(s[1..], q);
      if s[0] == q {
        EscapeQuoteStep(s, q);
      } else {
        EscapeOtherStep(s, q);
      }
    }
  }

  lemma {:induction false} EscapeQuoteStep(s: string, q: char)
    requires q != '\\' && |s| > 0 && s[0] == q
    requires ReplaceAll(Escape(s[1..], q), ['\\', q], [q]) == s[1..]
    ensures ReplaceAll(Escape(s, q), ['\\', q], [q]) == s
  {
    var pat := ['\\', q];
    var rest := Escape(s[1..], q);
    assert Escape(s, q) == pat + rest;
    ReplaceAllHead(rest, pat, [q]);
    assert [q] + s[1..] == s;
  }

  lemma {:induction false} EscapeOtherStep(s: string, q: char)
    requires q != '\\' && |s| > 0 && s[0] != q
    requires ReplaceAll(Escape(s[1..], q), ['\\', q], [q]) == s[1..]
    ensures ReplaceAll(Escape(s, q), ['\\', q], [q]) == s
  {
    var rest := Escape(s[1..], q);
    assert Escape(s, q) == [s[0]] + rest;
    EscapeHead(s[1..], q);
    NoEscapeAtFront(s[0], rest, q);
    ReplaceAllCons(s[0], rest, ['\\', q], [q]);
    assert [s[0]] + s[1..] == s;
  }

  /** A byte other than the quote, in front of a text that does not start with the quote,
      does not start an escaped quote. */
  lemma {:induction false} NoEscapeAtFront(c: char, rest: string, q: char)
    requires c != q && (|rest| == 0 || rest[0] != q)
    ensures !OccursAt([c] + rest, ['\\', q], 0)
  {
    var e := [c] + rest;
    if |e| >= 2 {
      assert e[0..2][1] == rest[0];
    }
  }

  /** Quoting an escaped text and unquoting it gives the text back. */
  lemma {:induction false} UnquoteRoundTrip(s: string, q: char)
    requires q != '\\'
    ensures Unquote([q] + Escape(s, q) + [q], q) == Ok(s)
  {
    var e := Escape(s, q);
    var str := [q] + e + [q];
    assert HasPrefix(str, [q]) && HasSuffix(str, [q]);
    assert str[1..|str| - 1] == e;
    EscapeUnescape(s, q);
  }

  /** ReplaceAll of a two-character pattern by one character never grows the text. */
  function ReplaceAllShrinks(s: string, pat: string, repl: string): (r: string)
    requires |pat| == 2 && |repl| == 1
    ensures r == ReplaceAll(s, pat, repl)
    ensures |r| <= |s|
    decreases |s|
  {
    match Index(s, pat)
    case None => ReplaceAllAbsent(s, pat, repl); s
    case Some(i) => ReplaceAllAt(s, pat, repl, i); s[..i] + repl + ReplaceAllShrinks(s[i + |pat|..], pat, repl)
  }

  /** `isInt`: strconv.Atoi succeeds. */
  function IsInt(s: string): Option<int> {
    Atoi(s)
  }

  predicate AllDigitsFrom(s: string, i: nat) {
    i <= |s| && forall j :: i <= j < |s| ==> IsDigit(s[j])
  }

  /** The parts of a decimal float literal after an optional sign: the digits before and
      after the point, and the exponent text after `e` or `E` (None when there is none). */
  datatype DecimalFields = DecimalFields(intPart: string, fracPart: string, exponent: Option<string>)

  function SplitDecimal(s: string): DecimalFields {
    var body := if |s| > 0 && (s[0] == '+' || s[0] == '-') then s[1..] else s;
    var e := Index(ToLower(body), "e");
    var mantissa := if e.Some? then body[..e.value] else body;
    var dot := Index(mantissa, ".");
    DecimalFields(
      if dot.Some? then mantissa[..dot.value] else mantissa,
      if dot.Some? then mantissa[dot.value + 1..] else "",
      if e.Some? then Some(body[e.value + 1..]) else None)
  }

  /** The digits of an exponent after its optional sign. */
  function ExponentDigits(exponent: string): string {
    if |exponent| > 0 && (exponent[0] == '+' || exponent[0] == '-') then exponent[1..] else exponent
  }

  /** The decimal float syntax strconv.ParseFloat accepts, after an optional sign:
      digits with an optional fraction (at least one digit overall) and an optional
      exponent. */
  predicate IsDecimalFloat(s: string) {
    var f := SplitDecimal(s);
    && AllDigits(f.intPart) && AllDigits(f.fracPart)
    && |f.intPart| + |f.fracPart| > 0
    && (f.exponent.Some? ==> |ExponentDigits(f.exponent.value)| > 0 && AllDigits(ExponentDigits(f.exponent.value)))
  }

  /** The special spellings strconv.ParseFloat accepts: a signed or unsigned `inf` or
      `infinity`, and `nan`, in any letter case. */
  predicate IsSpecialFloat(s: string) {
    var body := if |s| > 0 && (s[0] == '+' || s[0] == '-') then s[1..] else s;
    ToLower(body) == "inf" || ToLower(body) == "infinity" || ToLower(s) == "nan"
  }

  /** `isFloat`: strconv.ParseFloat(s, 64) succeeds (decimal and special spellings). */
  predicate IsFloat(s: string)
    ensures |s| > 0 && AllDigits(s) ==> IsFloat(s)
  {
    DigitsAreDecimalFloat(s);
    IsDecimalFloat(s) || IsSpecialFloat(s)
  }

  /** A run of digits is a decimal float literal with no point and no exponent. */
  lemma {:induction false} DigitsAreDecimalFloat(s: string)
    ensures |s| > 0 && AllDigits(s) ==> IsDecimalFloat(s)
  {
    if |s| > 0 && AllDigits(s) {
      var lower := ToLower(s);
      assert 'e' !in lower by {
        forall i | 0 <= i < |lower| ensures lower[i] != 'e' {
          assert IsDigit(s[i]);
        }
      }
      assert '.' !in s by {
        forall i | 0 <= i < |s| ensures s[i] != '.' {
          assert IsDigit(s[i]);
        }
      }
      IndexAbsentChar(lower, 'e');
      IndexAbsentChar(s, '.');
    }
  }

  /** `isBool`: the four accepted spellings. */
  function IsBool(s: string): (r: Option<bool>)
    ensures r == Some(true) <==> (s == "true" || s == "yes")
    ensures r == Some(false) <==> (s == "false" || s == "no")
  {
    if s == "true" || s == "yes" then Some(true)
    else if s == "false" || s == "no" then Some(false)
    else None
  }

  /** A quoted argument's outcome: the unquoted text as a string literal, or the crash. */
  function QuotedArg(u: Result<string, Error>): (r: Result<Arg, Error>)
    ensures r.Ok? <==> u.Ok?
    ensures u.Ok? ==> r.value == Literal(Str(u.value))
  {
    match u
    case Ok(v) => Ok(Literal(Str(v)))
    case Err(e) => Err(e)
  }

  /** Classify one (already trimmed) argument, in the source's order: double-quoted,
      single-quoted, integer, float, boolean, and otherwise a variable reference. */
  function ClassifyArg(arg: string): (r: Result<Arg, Error>)
    ensures r.Err? <==> arg == "\"" || arg == "'"
    ensures IsQuotedWith(arg, '"') || IsQuotedWith(arg, '\'') ==> r.Err? || (r.value.Literal? && r.value.value.Str?)
    ensures r.Ok? && r.value.VarRef? <==>
      && !IsQuotedWith(arg, '"') && !IsQuotedWith(arg, '\'')
      && IsInt(arg).None? && !IsFloat(arg) && IsBool(arg).None?
    ensures r.Ok? && r.value.VarRef? ==> r.value.name == arg
    ensures IsQuotedWith(arg, '"') ==> r == QuotedArg(Unquote(arg, '"'))
    ensures !IsQuotedWith(arg, '"') && IsQuotedWith(arg, '\'') ==> r == QuotedArg(Unquote(arg, '\''))
    ensures !IsQuotedWith(arg, '"') && !IsQuotedWith(arg, '\'') && IsInt(arg).Some? ==> r == Ok(Literal(Int(IsInt(arg).value)))
    ensures !IsQuotedWith(arg, '"') && !IsQuotedWith(arg, '\'') && IsInt(arg).None? && IsFloat(arg) ==> r == Ok(Literal(Float(arg)))
    ensures !IsQuotedWith(arg, '"') && !IsQuotedWith(arg, '\'') && IsInt(arg).None? && !IsFloat(arg) && IsBool(arg).Some? ==>
      r == Ok(Literal(Bool(IsBool(arg).value)))
  {
    LoneQuote(arg);
    if IsQuotedWith(arg, '"') then
      QuotedArg(Unquote(arg, '"'))
    else if IsQuotedWith(arg, '\'') then
      QuotedArg(Unquote(arg, '\''))
    else if IsInt(arg).Some? then Ok(Literal(Int(IsInt(arg).value)))
    else if IsFloat(arg) then Ok(Literal(Float(arg)))
    else if IsBool(arg).Some? then Ok(Literal(Bool(IsBool(arg).value)))
    else Ok(VarRef(arg))
  }

  /** A lone quote character counts as quoted with itself, and only with itself. */
  lemma {:induction false} LoneQuote(arg: string)
    ensures arg == "\"" ==> IsQuotedWith(arg, '"')
    ensures arg == "'" ==> !IsQuotedWith(arg, '"') && IsQuotedWith(arg, '\'')
  {
    if arg == "\"" || arg == "'" {
      assert arg[..1] == arg && arg[|arg| - 1..] == arg;
    }
  }

  /** Classify every argument, failing on the first one that crashes. */
  function ClassifyArgs(raw: seq<string>): (r: Result<seq<Arg>, Error>)
    ensures r.Ok? <==> forall k :: 0 <= k < |raw| ==> ClassifyArg(raw[k]).Ok?
    ensures r.Ok? ==> |r.value| == |raw| && forall k :: 0 <= k < |raw| ==> ClassifyArg(raw[k]).value == r.value[k]
  {
    var rs := seq(|raw|, k requires 0 <= k < |raw| => ClassifyArg(raw[k]));
    assert forall k :: 0 <= k < |raw| ==> rs[k] == ClassifyArg(raw[k]);
    Collect(rs)
  }

  /** A quoted argument is the literal string it escapes, with either quote character. */
  lemma {:induction false} ClassifyQuoted(s: string, q: char)
    requires IsQuoteChar(q)
    ensures ClassifyArg([q] + Escape(s, q) + [q]) == Ok(Literal(Str(s)))
  {
    var arg := [q] + Escape(s, q) + [q];
    UnquoteRoundTrip(s, q);
    assert arg[0] == q;
    if q == '\'' {
      assert !IsQuotedWith(arg, '"') by { assert arg[..1] == [q]; }
    }
  }

  /** A printed integer is the integer literal it prints. */
  lemma {:induction false} ClassifyInt(n: int)
    requires InInt64(n)
    ensures ClassifyArg(Itoa(n)) == Ok(Literal(Int(n)))
  {
    var arg := Itoa(n);
    ItoaAtoi(n);
    assert arg[0] == '-' || IsDigit(arg[0]);
    assert !IsQuotedWith(arg, '"') && !IsQuotedWith(arg, '\'') by { assert arg[..1] == [arg[0]]; }
  }

  /** The four boolean spellings are boolean literals. */
  lemma {:induction false} ClassifyBool(arg: string)
    requires arg in ["true", "yes", "false", "no"]
    ensures ClassifyArg(arg) == Ok(Literal(Bool(arg == "true" || arg == "yes")))
  {
    assert !IsQuotedWith(arg, '"') && !IsQuotedWith(arg, '\'') by { assert arg[..1] == [arg[0]]; }
    assert !AllDigits(arg) by { assert !IsDigit(arg[0]); }
    assert IsInt(arg).None? by { assert arg[0] != '-' && arg[0] != '+'; }
    assert ToLower(arg) != "nan" by {
      assert |ToLower(arg)| != 3 || ToLower(arg)[0] == ToLowerChar(arg[0]) == 'y';
    }
    NotFloatStart(arg);
  }

  /** A text that starts with neither a digit, a sign, a point nor the `i` of `inf`, and
      is not `nan`, spells no float. */
  lemma {:induction false} NotFloatStart(arg: string)
    requires |arg| > 0 && !IsDigit(arg[0]) && arg[0] !in {'+', '-', '.', 'i', 'I'}
    requires ToLower(arg) != "nan"
    ensures !IsFloat(arg)
  {
    assert ToLowerChar(arg[0]) != 'i';
    assert !IsSpecialFloat(arg) by {
      assert ToLower(arg)[0] != 'i';
    }
    var f := SplitDecimal(arg);
    var e := Index(ToLower(arg), "e");
    var mantissa := if e.Some? then arg[..e.value] else arg;
    var dot := Index(mantissa, ".");
    if |mantissa| == 0 {
      assert dot.None?;
      assert |f.intPart| + |f.fracPart| == 0;
    } else {
      assert mantissa[0] == arg[0];
      if dot.Some? {
        assert mantissa[dot.value..dot.value + 1] == ".";
        assert dot.value != 0;
        assert f.intPart[0] == arg[0];
      } else {
        assert f.intPart[0] == arg[0];
      }
    }
  }

  // ---------------------------------------------------------------------------
  // Pipeline parsing
  // ---------------------------------------------------------------------------

  /** The filter name and raw argument text of one `|` segment: the name is the trimmed
      text before the first `:`, the arguments are what follows it. The search for `:`
      is not quote-aware (the source's predicate is true for every `:`). */
  function SplitCall(segment: string): (r: (string, string))
    ensures Index(segment, ":").None? ==> r == (segment, "")
    ensures Index(segment, ":").Some? ==>
      && segment == segment[..Index(segment, ":").value] + ":" + r.1
      && r.0 == TrimSpace(segment[..Index(segment, ":").value])
  {
    match Index(segment, ":")
    case None => (segment, "")
    case Some(i) =>
      assert segment == segment[..i] + ":" + segment[i + 1..] by {
        assert segment[i..i + 1] == ":";
      }
      (TrimSpace(segment[..i]), segment[i + 1..])
  }

  function ParseCall(segment: string): (r: Result<Func, Error>)
    ensures r.Ok? ==> r.value.name == SplitCall(TrimSpace(segment)).0
    ensures r.Ok? ==> |r.value.args| == |SplitRespectingQuotes(SplitCall(TrimSpace(segment)).1, ",")|
    ensures r.Ok? <==> ClassifyArgs(SplitRespectingQuotes(SplitCall(TrimSpace(segment)).1, ",")).Ok?
    ensures r.Ok? ==> r.value.args == ClassifyArgs(SplitRespectingQuotes(SplitCall(TrimSpace(segment)).1, ",")).value
  {
    var (name, argsText) := SplitCall(TrimSpace(segment));
    match ClassifyArgs(SplitRespectingQuotes(argsText, ","))
    case Err(e) => Err(e)
    case Ok(args) => Ok(Func(name, args))
  }

  /** Parse every `|` segment after the first, failing on the first one that crashes. */
  function ParseCalls(segments: seq<string>): (r: Result<seq<Func>, Error>)
    ensures r.Ok? <==> forall k :: 0 <= k < |segments| ==> ParseCall(segments[k]).Ok?
    ensures r.Ok? ==> |r.value| == |segments|
  {
    Collect(ParseEach(segments))
  }

  function ParseEach(segments: seq<string>): (rs: seq<Result<Func, Error>>)
    ensures |rs| == |segments|
    ensures forall k :: 0 <= k < |segments| ==> rs[k] == ParseCall(segments[k])
  {
    seq(|segments|, k requires 0 <= k < |segments| => ParseCall(segments[k]))
  }

  /** The k-th call of a parsed pipeline is the parse of the k-th segment. */
  lemma {:induction false} ParseCallsAt(segments: seq<string>, k: nat)
    requires ParseCalls(segments).Ok? && k < |segments|
    ensures ParseCall(segments[k]).Ok? && ParseCalls(segments).value[k] == ParseCall(segments[k]).value
  {
    var rs := ParseEach(segments);
    assert rs[k] == ParseCall(segments[k]);
  }

  /** A cut of the split: the separator character outside every quoted span. */
  predicate CutAt(s: string, c: char, k: nat)
    requires k < |s|
  {
    s[k] == c && StateBefore(s, k).Outside?
  }

  /** The index of the first cut at or after `from`, or |s| when there is none. */
  function FirstCut(s: string, c: char, from: nat): (k: nat)
    requires from <= |s|
    ensures from <= k <= |s|
    ensures k < |s| ==> CutAt(s, c, k)
    ensures forall j :: from <= j < k ==> !CutAt(s, c, j)
    decreases |s| - from
  {
    if from == |s| then |s| else if CutAt(s, c, from) then from else FirstCut(s, c, from + 1)
  }

  /** The first untrimmed piece of the split ends at the first cut. */
  lemma {:induction false} RawFirstPiece(s: string, c: char, i: nat)
    requires !IsQuoteChar(c) && i <= |s|
    requires forall j :: 0 <= j < i ==> !CutAt(s, c, j)
    ensures RawPieces(s, [c], i, StateBefore(s, i), s[..i])[0] == s[..FirstCut(s, c, i)]
    decreases |s| - i
  {
    if i < |s| {
      var st := StateBefore(s, i);
      if st.Outside? && !IsQuoteChar(s[i]) && HasPrefix(s[i..], [c]) {
        assert s[i] == c;
        assert CutAt(s, c, i);
      } else {
        assert !CutAt(s, c, i) by {
          if s[i] == c {
            assert HasPrefix(s[i..], [c]) by { assert s[i..][..1] == [c]; }
          }
        }
        assert s[..i] + [s[i]] == s[..i + 1];
        RawFirstPiece(s, c, i + 1);
      }
    }
  }

  /** The variable name of a filtered placeholder: the text before the first `|` that is
      outside quotes (the whole text when there is none), trimmed. */
  function BaseName(raw: string): (r: string)
    ensures r == TrimSpace(raw[..FirstCut(raw, '|', 0)])
  {
    var parts := SplitRespectingQuotes(raw, "|");
    RawFirstPiece(raw, '|', 0);
    SplitPieces(raw, "|");
    assert raw[..0] == "";
    if |parts| == 0 then
      assert raw == "";
      assert TrimSpace("") == "";
      ""
    else
      TrimSpaceIdempotent(RawSplit(raw, "|")[0]);
      TrimSpace(parts[0])
  }

  /** `getVarAndFunctions`: the variable name and the filter calls of a pipeline. Go
      panics when the text has no piece at all (`split[0]` of an empty slice) and when an
      argument is a lone quote character. */
  function GetVarAndFunctions(raw: string): (r: Result<(string, seq<Func>), Error>)
    ensures |raw| == 0 ==> r.Err?
    ensures r.Ok? <==> |raw| > 0 && ParseCalls(SplitRespectingQuotes(raw, "|")[1..]).Ok?
    ensures r.Ok? ==> r.value.0 == BaseName(raw)
    ensures r.Ok? ==> |r.value.1| == |SplitRespectingQuotes(raw, "|")| - 1
    ensures r.Ok? ==> r.value.1 == ParseCalls(SplitRespectingQuotes(raw, "|")[1..]).value
  {
    var parts := SplitRespectingQuotes(raw, "|");
    if |parts| == 0 then Err(Crash("index out of range [0] with length 0"))
    else
      match ParseCalls(parts[1..])
      case Err(e) => Err(e)
      case Ok(funcs) => Ok((TrimSpace(parts[0]), funcs))
  }

  /** `hasDefaultFunction`: some call in the chain is named `default`. */
  function HasDefaultFunction(funcs: seq<Func>): (r: bool)
    ensures r <==> exists k :: 0 <= k < |funcs| && funcs[k].name == "default"
  {
    if |funcs| == 0 then false
    else if funcs[0].name == "default" then true
    else
      assert forall k :: 1 <= k < |funcs| ==> funcs[k] == funcs[1..][k - 1];
      HasDefaultFunction(funcs[1..])
  }

  // ---------------------------------------------------------------------------
  // Text without quotes, and a worked pipeline
  // ---------------------------------------------------------------------------

  /** Splitting on a byte with no quote handling, `cur` being the piece collected so far. */
  function PlainSplit(t: string, c: char, cur: string): (r: seq<string>)
    ensures |r| >= 1
    decreases |t|
  {
    if |t| == 0 then [cur]
    else if t[0] == c then [cur] + PlainSplit(t[1..], c, "")
    else PlainSplit(t[1..], c, cur + [t[0]])
  }

  /** On text without quote characters the quote tracker never leaves Outside, so the
      untrimmed pieces are those of the plain split. */
  lemma {:induction false} RawPiecesPlain(s: string, c: char, i: nat, cur: string)
    requires i <= |s| && !IsQuoteChar(c) && '"' !in s[i..] && '\'' !in s[i..]
    ensures RawPieces(s, [c], i, Outside, cur) == PlainSplit(s[i..], c, cur)
    decreases |s| - i
  {
    if i < |s| {
      assert s[i..][0] == s[i];
      assert s[i..][1..] == s[i + 1..];
      if s[i] == c {
        assert HasPrefix(s[i..], [c]) by { assert s[i..][..1] == [c]; }
        RawPiecesPlain(s, c, i + 1, "");
      } else {
        assert !HasPrefix(s[i..], [c]) by { assert s[i..][..1][0] == s[i]; }
        RawPiecesPlain(s, c, i + 1, cur + [s[i]]);
      }
    }
  }

  /** A stretch without the separator, then the separator, is one piece. */
  lemma {:induction false} PlainSplitPiece(a: string, c: char, b: string, cur: string)
    requires c !in a
    ensures PlainSplit(a + [c] + b, c, cur) == [cur + a] + PlainSplit(b, c, "")
    decreases |a|
  {
    if |a| == 0 {
      assert a + [c] + b == [c] + b;
      assert ([c] + b)[1..] == b;
      assert cur + a == cur;
    } else {
      assert (a + [c] + b)[0] == a[0];
      assert (a + [c] + b)[1..] == a[1..] + [c] + b;
      PlainSplitPiece(a[1..], c, b, cur + [a[0]]);
      assert (cur + [a[0]]) + a[1..] == cur + a;
    }
  }

  /** A last stretch without the separator is the last piece. */
  lemma {:induction false} PlainSplitLast(a: string, c: char, cur: string)
    requires c !in a
    ensures PlainSplit(a, c, cur) == [cur + a]
    decreases |a|
  {
    if |a| == 0 {
      assert cur + a == cur;
    } else {
      assert a[1..] == a[1..];
      PlainSplitLast(a[1..], c, cur + [a[0]]);
      assert (cur + [a[0]]) + a[1..] == cur + a;
    }
  }

  /** Splitting undoes joining, when no part holds the separator. */
  lemma {:induction false} PlainSplitJoin(parts: seq<string>, c: char)
    requires |parts| > 0 && forall k :: 0 <= k < |parts| ==> c !in parts[k]
    ensures PlainSplit(Join(parts, [c]), c, "") == parts
    decreases |parts|
  {
    if |parts| == 1 {
      PlainSplitLast(parts[0], c, "");
      assert "" + parts[0] == parts[0];
    } else {
      PlainSplitJoin(parts[1..], c);
      PlainSplitPiece(parts[0], c, Join(parts[1..], [c]), "");
      assert "" + parts[0] == parts[0];
      assert parts == [parts[0]] + parts[1..];
    }
  }

  /** A character in no part, other than the separator, is not in the joined text. */
  lemma {:induction false} JoinLacks(parts: seq<string>, c: char, x: char)
    requires x != c && forall k :: 0 <= k < |parts| ==> x !in parts[k]
    ensures x !in Join(parts, [c])
    decreases |parts|
  {
    if |parts| > 1 {
      JoinLacks(parts[1..], c, x);
    }
  }

  /** On parts without quote characters and without the separator, with a last part that
      is not empty, the quote-respecting split of their join gives the parts back, trimmed. */
  lemma {:induction false} SplitJoinPlain(parts: seq<string>, c: char)
    requires |parts| > 0 && parts[|parts| - 1] != "" && !IsQuoteChar(c)
    requires forall k :: 0 <= k < |parts| ==> c !in parts[k] && '"' !in parts[k] && '\'' !in parts[k]
    ensures var r := SplitRespectingQuotes(Join(parts, [c]), [c]);
      |r| == |parts| && forall k :: 0 <= k < |parts| ==> r[k] == TrimSpace(parts[k])
  {
    var s := Join(parts, [c]);
    JoinLacks(parts, c, '"');
    JoinLacks(parts, c, '\'');
    assert s[0..] == s;
    RawPiecesPlain(s, c, 0, "");
    PlainSplitJoin(parts, c);
    SplitPieces(s, [c]);
  }

  /** A word of a pipeline: not empty, no white space at either end, and neither a quote
      character nor `|`. */
  predicate PlainWord(w: string) {
    && |w| > 0 && !IsSpace(w[0]) && !IsSpace(w[|w| - 1])
    && '|' !in w && '"' !in w && '\'' !in w
  }

  /** The words written the way templates write a chain: ` | ` between them. */
  function JoinWords(ws: seq<string>): (r: string)
    requires |ws| > 0
    ensures |ws| == 1 ==> r == ws[0]
  {
    if |ws| == 1 then ws[0] else ws[0] + " | " + JoinWords(ws[1..])
  }

  /** The untrimmed pieces of `JoinWords(ws)` cut at every `|`, the first one starting
      with `lead`. */
  function PadFrom(ws: seq<string>, lead: string): (r: seq<string>)
    requires |ws| > 0
    ensures |r| == |ws|
  {
    if |ws| == 1 then [lead + ws[0]] else [lead + ws[0] + " "] + PadFrom(ws[1..], " ")
  }

  /** Cutting the chain at every `|` gives the padded words. */
  lemma {:induction false} PlainSplitWords(ws: seq<string>, lead: string)
    requires |ws| > 0 && forall k :: 0 <= k < |ws| ==> '|' !in ws[k]
    ensures PlainSplit(JoinWords(ws), '|', lead) == PadFrom(ws, lead)
    decreases |ws|
  {
    if |ws| == 1 {
      PlainSplitLast(ws[0], '|', lead);
    } else {
      var rest := JoinWords(ws[1..]);
      assert JoinWords(ws) == (ws[0] + " ") + ['|'] + (" " + rest);
      PlainSplitPiece(ws[0] + " ", '|', " " + rest, lead);
      assert (" " + rest)[0] == ' ' && (" " + rest)[1..] == rest;
      assert PlainSplit(" " + rest, '|', "") == PlainSplit(rest, '|', "" + [' ']);
      assert "" + [' '] == " ";
      PlainSplitWords(ws[1..], " ");
      assert lead + (ws[0] + " ") == lead + ws[0] + " ";
    }
  }

  /** Neither quote character occurs in a chain of plain words. */
  lemma {:induction false} JoinWordsUnquoted(ws: seq<string>)
    requires |ws| > 0 && forall k :: 0 <= k < |ws| ==> PlainWord(ws[k])
    ensures '"' !in JoinWords(ws) && '\'' !in JoinWords(ws)
    decreases |ws|
  {
    if |ws| > 1 {
      assert PlainWord(ws[0]);
      JoinWordsUnquoted(ws[1..]);
    } else {
      assert PlainWord(ws[0]);
    }
  }

  /** Each padded piece is its word with the lead (or a space) before it and a space after
      it unless it is the last. */
  lemma {:induction false} PadFromShape(ws: seq<string>, lead: string)
    requires |ws| > 0
    ensures forall k :: 0 <= k < |ws| ==>
      PadFrom(ws, lead)[k] == (if k == 0 then lead else " ") + ws[k] + (if k + 1 < |ws| then " " else "")
    decreases |ws|
  {
    if |ws| > 1 {
      var tail := PadFrom(ws[1..], " ");
      PadFromShape(ws[1..], " ");
      forall k | 1 <= k < |ws| ensures PadFrom(ws, lead)[k] == tail[k - 1] {
      }
    }
  }

  /** Trimming a plain word with at most one space on either side gives the word back. */
  lemma {:induction false} PadPieceTrimmed(w: string, lead: string, tail: string)
    requires PlainWord(w) && (lead == "" || lead == " ") && (tail == "" || tail == " ")
    ensures TrimSpace(lead + w + tail) == w
  {
    if lead == "" && tail == "" {
      assert lead + w + tail == w;
      TrimSpaceOfPadding(w, w, 0, 0);
    } else if lead == "" {
      assert lead + w + tail == w + " ";
      TrimSpaceOfRightPadded(w);
    } else if tail == "" {
      assert lead + w + tail == " " + w;
      TrimSpaceOfLeftPadded(w);
    } else {
      assert lead + w + tail == " " + w + " ";
      TrimSpaceOfPadded(w);
    }
  }

  /** Trimming a padded piece gives its word back. */
  lemma {:induction false} PadFromTrimmed(ws: seq<string>, lead: string)
    requires |ws| > 0 && (lead == "" || lead == " ")
    requires forall k :: 0 <= k < |ws| ==> PlainWord(ws[k])
    ensures forall k :: 0 <= k < |ws| ==> TrimSpace(PadFrom(ws, lead)[k]) == ws[k]
  {
    PadFromShape(ws, lead);
    forall k | 0 <= k < |ws| ensures TrimSpace(PadFrom(ws, lead)[k]) == ws[k] {
      PadPieceTrimmed(ws[k], if k == 0 then lead else " ", if k + 1 < |ws| then " " else "");
    }
  }

  /** Plain words written with ` | ` between them split back into the words. */
  lemma {:induction false} SplitWords(ws: seq<string>)
    requires |ws| > 0 && forall k :: 0 <= k < |ws| ==> PlainWord(ws[k])
    ensures SplitRespectingQuotes(JoinWords(ws), "|") == ws
  {
    var s := JoinWords(ws);
    JoinWordsUnquoted(ws);
    assert s[0..] == s;
    RawPiecesPlain(s, '|', 0, "");
    assert forall k :: 0 <= k < |ws| ==> '|' !in ws[k] by {
      forall k | 0 <= k < |ws| ensures '|' !in ws[k] { assert PlainWord(ws[k]); }
    }
    PlainSplitWords(ws, "");
    PadFromTrimmed(ws, "");
    var raw := PadFrom(ws, "");
    assert PlainWord(ws[|ws| - 1]);
    assert raw[|raw| - 1] != "";
    SplitPieces(s, "|");
    TrimmedPiecesAre(SplitRespectingQuotes(s, "|"), raw, ws);
  }

  /** Pieces that are the trimmed raw pieces, which trim to the words, are the words. */
  lemma {:induction false} TrimmedPiecesAre(r: seq<string>, raw: seq<string>, ws: seq<string>)
    requires |r| == |raw| == |ws|
    requires forall k :: 0 <= k < |r| ==> r[k] == TrimSpace(raw[k])
    requires forall k :: 0 <= k < |ws| ==> TrimSpace(raw[k]) == ws[k]
    ensures r == ws
  {
  }

  /** Trimming removes white space padding around a word with non-space ends. */
  lemma {:induction false} TrimSpaceOfPadding(p: string, w: string, before: nat, after: nat)
    requires |w| > 0 && !IsSpace(w[0]) && !IsSpace(w[|w| - 1])
    requires |p| == before + |w| + after && p[before..before + |w|] == w
    requires forall k :: 0 <= k < before ==> p[k] == ' '
    requires forall k :: before + |w| <= k < |p| ==> p[k] == ' '
    ensures TrimSpace(p) == w
  {
    assert SliceAt(p, before, w);
    TrimSpaceIsSpaceTrimmed(p, w);
  }

  /** A chain of plain words names its variable by the first word and parses its calls
      from the others. */
  lemma {:induction false} GetVarWords(ws: seq<string>)
    requires |ws| > 1 && forall k :: 0 <= k < |ws| ==> PlainWord(ws[k])
    requires ParseCalls(ws[1..]).Ok?
    ensures GetVarAndFunctions(JoinWords(ws)) == Ok((ws[0], ParseCalls(ws[1..]).value))
  {
    SplitWords(ws);
    assert PlainWord(ws[0]);
    TrimSpaceOfPadding(ws[0], ws[0], 0, 0);
  }

  /** A chain of plain words whose calls parse names its first word and those calls. */
  lemma {:induction false} GetVarCalls(ws: seq<string>, funcs: seq<Func>)
    requires |ws| > 1 && forall k :: 0 <= k < |ws| ==> PlainWord(ws[k])
    requires |funcs| == |ws| - 1
    requires forall k :: 0 <= k < |funcs| ==> ParseCall(ws[1..][k]) == Ok(funcs[k])
    ensures GetVarAndFunctions(JoinWords(ws)) == Ok((ws[0], funcs))
  {
    ParseCallsAre(ws[1..], funcs);
    GetVarWords(ws);
  }

  /** A call without `:` has no arguments. */
  lemma {:induction false} CallWithoutArgs(name: string)
    requires PlainWord(name) && ':' !in name
    ensures ParseCall(name) == Ok(Func(name, []))
  {
    TrimSpaceOfPadding(name, name, 0, 0);
    IndexAbsentChar(name, ':');
  }
  /** A call `name:arg` cuts at its first `:`. */
  lemma {:induction false} SplitCallAt(name: string, arg: string)
    requires PlainWord(name) && ':' !in name
    ensures SplitCall(name + ":" + arg) == (name, arg)
  {
    var segment := name + ":" + arg;
    assert segment[..|name|] == name && segment[|name|] == ':';
    IndexFirstChar(segment, ':', |name|);
    assert segment[|name| + 1..] == arg;
    TrimSpaceOfPadding(name, name, 0, 0);
  }

  /** A plain word without `,` is one argument. */
  lemma {:induction false} SplitOneArg(arg: string)
    requires PlainWord(arg) && ',' !in arg
    ensures SplitRespectingQuotes(arg, ",") == [arg]
  {
    var r := SplitRespectingQuotes(arg, ",");
    assert |r| == 1 && r[0] == TrimSpace(arg) by {
      assert Join([arg], ",") == arg;
      SplitJoinPlain([arg], ',');
    }
    TrimSpaceOfPadding(arg, arg, 0, 0);
  }

  /** A call `name:arg` with one plain argument has that argument, classified. */
  lemma {:induction false} CallWithOneArg(name: string, arg: string)
    requires PlainWord(name) && ':' !in name
    requires PlainWord(arg) && ',' !in arg && ClassifyArg(arg).Ok?
    ensures ParseCall(name + ":" + arg) == Ok(Func(name, [ClassifyArg(arg).value]))
  {
    var segment := name + ":" + arg;
    assert TrimSpace(segment) == segment by {
      assert segment[0] == name[0] && segment[|segment| - 1] == arg[|arg| - 1];
      TrimSpaceOfPadding(segment, segment, 0, 0);
    }
    SplitCallAt(name, arg);
    SplitOneArg(arg);
    ClassifyOne(arg);
  }

  /** One argument that classifies is a list of one. */
  lemma {:induction false} ClassifyOne(arg: string)
    requires ClassifyArg(arg).Ok?
    ensures ClassifyArgs([arg]) == Ok([ClassifyArg(arg).value])
  {
    var args := ClassifyArgs([arg]);
    assert args.Ok? && args.value == [ClassifyArg(arg).value];
  }
  /** Segments that each parse to the given call parse, together, to those calls. */
  lemma {:induction false} ParseCallsAre(segments: seq<string>, funcs: seq<Func>)
    requires |segments| == |funcs|
    requires forall k :: 0 <= k < |segments| ==> ParseCall(segments[k]) == Ok(funcs[k])
    ensures ParseCalls(segments) == Ok(funcs)
  {
    var r := ParseCalls(segments);
    assert r.Ok?;
    var fs := r.value;
    forall k | 0 <= k < |segments| ensures fs[k] == funcs[k] {
      ParseCallsAt(segments, k);
    }
    SameCalls(fs, funcs);
  }

  lemma {:induction false} SameCalls(a: seq<Func>, b: seq<Func>)
    requires |a| == |b| && forall k :: 0 <= k < |a| ==> a[k] == b[k]
    ensures a == b
  {
  }

  /** Four words written with ` | ` between them. */
  lemma {:induction false} JoinFour(a: string, b: string, c: string, d: string)
    ensures JoinWords([a, b, c, d]) == a + " | " + b + " | " + c + " | " + d
  {
    assert [a, b, c, d][1..] == [b, c, d];
    assert [b, c, d][1..] == [c, d];
    assert [c, d][1..] == [d];
    var bar := " | ";
    assert JoinWords([c, d]) == c + bar + d;
    assert JoinWords([b, c, d]) == b + bar + (c + bar + d);
    assert JoinWords([a, b, c, d]) == a + bar + (b + bar + (c + bar + d));
    calc {
      a + bar + (b + bar + (c + bar + d));
      (a + bar + b) + bar + (c + bar + d);
      (a + bar + b + bar + c) + bar + d;
    }
  }

  /** The decimal text of a natural number is a plain word without `:` or `,`. */
  lemma {:induction false} ItoaPlain(n: nat)
    ensures PlainWord(Itoa(n)) && ':' !in Itoa(n) && ',' !in Itoa(n)
  {
    var d := Itoa(n);
    assert forall k :: 0 <= k < |d| ==> IsDigit(d[k]);
  }

  /** A call `name:n` has the one integer argument n. */
  lemma {:induction false} CallWithInt(name: string, n: nat)
    requires PlainWord(name) && ':' !in name && InInt64(n)
    ensures ParseCall(name + ":" + Itoa(n)) == Ok(Func(name, [Literal(Int(n))]))
  {
    ItoaPlain(n);
    ClassifyInt(n);
    CallWithOneArg(name, Itoa(n));
  }

  /** A name, `:`, and a plain word make a plain word. */
  lemma {:induction false} PlainWithColon(name: string, arg: string)
    requires PlainWord(name) && PlainWord(arg)
    ensures PlainWord(name + ":" + arg)
  {
    var m := name + ":" + arg;
    assert m[0] == name[0] && m[|m| - 1] == arg[|arg| - 1];
    assert forall x :: x in m ==> x in name || x == ':' || x in arg;
  }

  /** The chain `v | a | b:n | c`: the variable v, the calls a() and c() without
      arguments, and the call b(n) with one integer argument. */
  lemma {:induction false} ChainOfThree(v: string, a: string, b: string, n: nat, c: string)
    requires PlainWord(v) && PlainWord(a) && PlainWord(b) && PlainWord(c)
    requires ':' !in a && ':' !in b && ':' !in c && InInt64(n)
    ensures GetVarAndFunctions(v + " | " + a + " | " + b + ":" + Itoa(n) + " | " + c) ==
      Ok((v, [Func(a, []), Func(b, [Literal(Int(n))]), Func(c, [])]))
  {
    var ws := [v, a, b + ":" + Itoa(n), c];
    var funcs := [Func(a, []), Func(b, [Literal(Int(n))]), Func(c, [])];
    ChainJoined(v, a, b, n, c);
    ChainPlainWords(v, a, b, n, c);
    ChainCallsParse(a, b, n, c);
    assert ws[1..] == [a, b + ":" + Itoa(n), c];
    GetVarCalls(ws, funcs);
  }

  lemma {:induction false} ChainJoined(v: string, a: string, b: string, n: nat, c: string)
    ensures JoinWords([v, a, b + ":" + Itoa(n), c]) == v + " | " + a + " | " + b + ":" + Itoa(n) + " | " + c
  {
    var m := b + ":" + Itoa(n);
    JoinFour(v, a, m, c);
    assert v + " | " + a + " | " + m == v + " | " + a + " | " + b + ":" + Itoa(n);
  }

  lemma {:induction false} ChainPlainWords(v: string, a: string, b: string, n: nat, c: string)
    requires PlainWord(v) && PlainWord(a) && PlainWord(b) && PlainWord(c)
    ensures var ws := [v, a, b + ":" + Itoa(n), c]; forall k :: 0 <= k < |ws| ==> PlainWord(ws[k])
  {
    ItoaPlain(n);
    PlainWithColon(b, Itoa(n));
  }

  lemma {:induction false} ChainCallsParse(a: string, b: string, n: nat, c: string)
    requires PlainWord(a) && PlainWord(b) && PlainWord(c)
    requires ':' !in a && ':' !in b && ':' !in c && InInt64(n)
    ensures var segments := [a, b + ":" + Itoa(n), c];
      var funcs := [Func(a, []), Func(b, [Literal(Int(n))]), Func(c, [])];
      forall k :: 0 <= k < |funcs| ==> ParseCall(segments[k]) == Ok(funcs[k])
  {
    var segments := [a, b + ":" + Itoa(n), c];
    var funcs := [Func(a, []), Func(b, [Literal(Int(n))]), Func(c, [])];
    forall k | 0 <= k < |funcs| ensures ParseCall(segments[k]) == Ok(funcs[k]) {
      if k == 0 {
        CallWithoutArgs(a);
      } else if k == 1 {
        CallWithInt(b, n);
      } else {
        CallWithoutArgs(c);
      }
    }
  }
}
