/**
 The filters of package functions/text: trimming by a cutset or an exact prefix or
 suffix, `Split`, and the conversions between a hyphenated slug and a title.

 A `[]byte` value is handled as the string of its bytes and comes back as a `[]byte`.
 Case mapping and the regular-expression character classes are ASCII.
 */
module Text {
  import opened Wrappers
  import opened Strings
  import opened Values
  import Functions

  // ---------------------------------------------------------------------------
  // trim.go
  // ---------------------------------------------------------------------------

  /** The cutset `TrimPrefix` and `TrimSuffix` use without an argument. */
  const Blanks: string := "\n \t"

  /** Applies a string operation to a string or a `[]byte` value; any other value is an
      error, and so is a failing operation. */
  function OnText(value: Value, r: Result<string, string>): (out: FilterOut)
    requires value.Str? || value.Bytes?
    ensures out.Returned? && (out.err.Some? <==> r.Err?)
    ensures out.err.Some? ==> out.value == Nil
    ensures r.Ok? && value.Str? ==> out.value == Str(r.value)
    ensures r.Ok? && value.Bytes? ==> out.value == Bytes(r.value)
  {
    match r
    case Err(e) => Fail(Nil, e)
    case Ok(s) => if value.Str? then Done(Str(s)) else Done(Bytes(s))
  }

  /** `r` is `v` with bytes of `cutset` cut off at both ends and only there. */
  ghost predicate CutsetTrimmed(v: string, r: string, cutset: string) {
    exists i :: SliceAt(v, i, r) && (forall k :: 0 <= k < i ==> v[k] in cutset) && (forall k :: i + |r| <= k < |v| ==> v[k] in cutset)
  }

  /** `Trim` on the text: white space without an argument, the argument's bytes with one. */
  function TrimText(v: string, params: seq<Value>): (r: Result<string, string>)
    ensures r.Err? <==> |params| > 0 && !params[0].Str?
    ensures r.Ok? && |params| == 0 ==> SpaceTrimmed(v, r.value)
    ensures r.Ok? && |params| > 0 ==> CutsetTrimmed(v, r.value, params[0].s)
    ensures r.Ok? && |params| > 0 && |r.value| > 0 ==> r.value[0] !in params[0].s && r.value[|r.value| - 1] !in params[0].s
  {
    if |params| == 0 then Ok(TrimSpace(v))
    else if params[0].Str? then Ok(Strings.Trim(v, params[0].s))
    else Err("expected string as first parameter")
  }

  /** `Trim`. */
  function Trim(value: Value, params: seq<Value>): (r: FilterOut)
    ensures r.Returned?
    ensures r.err.Some? <==> !(value.Str? || value.Bytes?) || (|params| > 0 && !params[0].Str?)
    ensures r.err.Some? ==> r.value == Nil
    ensures r.err.None? && value.Str? ==> r.value == Str(TrimText(value.s, params).value)
    ensures r.err.None? && value.Bytes? ==> r.value == Bytes(TrimText(value.data, params).value)
  {
    if value.Str? || value.Bytes? then OnText(value, TrimText(TextOf(value), params))
    else Fail(Nil, "expected string or []byte")
  }

  /** Trimming by a cutset, or by white space, twice is trimming once. */
  lemma {:induction false} TrimIdempotent(value: Value, params: seq<Value>)
    requires Trim(value, params).err.None?
    ensures Trim(Trim(value, params).value, params) == Trim(value, params)
  {
    var v := TextOf(value);
    if |params| == 0 {
      TrimSpaceIdempotent(v);
    } else {
      TrimFuncIdempotent(v, c => c in params[0].s);
    }
  }

  /** A `[]byte` is trimmed exactly as the string of its bytes. */
  lemma {:induction false} TrimBytesAsString(d: string, params: seq<Value>)
    ensures Trim(Bytes(d), params).err == Trim(Str(d), params).err
    ensures Trim(Str(d), params).err.None? ==> Trim(Bytes(d), params).value == Bytes(Trim(Str(d), params).value.s)
  {
  }

  /** `TrimPrefix` on the text: the blanks from the left without an argument, the exact
      argument once with one. */
  function TrimPrefixText(v: string, params: seq<Value>): (r: Result<string, string>)
    ensures r.Err? <==> |params| > 0 && !params[0].Str?
    ensures r.Ok? && |params| == 0 ==> (
      && HasSuffix(v, r.value) && (|r.value| > 0 ==> r.value[0] !in Blanks)
      && forall i :: 0 <= i < |v| - |r.value| ==> v[i] in Blanks)
    ensures r.Ok? && |params| > 0 ==>
      (if HasPrefix(v, params[0].s) then v == params[0].s + r.value else r.value == v)
  {
    if |params| == 0 then Ok(TrimLeft(v, Blanks))
    else if params[0].Str? then Ok(TrimPrefix(v, params[0].s))
    else Err("expected string as first parameter")
  }

  /** `TrimSuffix` on the text, the mirror image of `TrimPrefixText`. */
  function TrimSuffixText(v: string, params: seq<Value>): (r: Result<string, string>)
    ensures r.Err? <==> |params| > 0 && !params[0].Str?
    ensures r.Ok? && |params| == 0 ==> (
      && HasPrefix(v, r.value) && (|r.value| > 0 ==> r.value[|r.value| - 1] !in Blanks)
      && forall i :: |r.value| <= i < |v| ==> v[i] in Blanks)
    ensures r.Ok? && |params| > 0 ==>
      (if HasSuffix(v, params[0].s) then v == r.value + params[0].s else r.value == v)
  {
    if |params| == 0 then Ok(TrimRight(v, Blanks))
    else if params[0].Str? then Ok(TrimSuffix(v, params[0].s))
    else Err("expected string as first parameter")
  }

  /** `TrimPrefix`. */
  function TrimPrefixFilter(value: Value, params: seq<Value>): (r: FilterOut)
    ensures r.Returned?
    ensures r.err.Some? <==> !(value.Str? || value.Bytes?) || (|params| > 0 && !params[0].Str?)
    ensures r.err.Some? ==> r.value == Nil
    ensures r.err.None? && value.Str? ==> r.value == Str(TrimPrefixText(value.s, params).value)
    ensures r.err.None? && value.Bytes? ==> r.value == Bytes(TrimPrefixText(value.data, params).value)
  {
    if value.Str? || value.Bytes? then OnText(value, TrimPrefixText(TextOf(value), params))
    else Fail(Nil, "expected string or []byte")
  }

  /** `TrimSuffix`. */
  function TrimSuffixFilter(value: Value, params: seq<Value>): (r: FilterOut)
    ensures r.Returned?
    ensures r.err.Some? <==> !(value.Str? || value.Bytes?) || (|params| > 0 && !params[0].Str?)
    ensures r.err.Some? ==> r.value == Nil
    ensures r.err.None? && value.Str? ==> r.value == Str(TrimSuffixText(value.s, params).value)
    ensures r.err.None? && value.Bytes? ==> r.value == Bytes(TrimSuffixText(value.data, params).value)
  {
    if value.Str? || value.Bytes? then OnText(value, TrimSuffixText(TextOf(value), params))
    else Fail(Nil, "expected string or []byte")
  }

  /** Without an argument `TrimPrefix` is idempotent. */
  lemma {:induction false} TrimPrefixBlanksIdempotent(v: string)
    ensures TrimPrefixFilter(TrimPrefixFilter(Str(v), []).value, []) == TrimPrefixFilter(Str(v), [])
  {
    TrimLeftFuncFixed(TrimLeft(v, Blanks), c => c in Blanks);
  }

  /** Without an argument `TrimSuffix` is idempotent. */
  lemma {:induction false} TrimSuffixBlanksIdempotent(v: string)
    ensures TrimSuffixFilter(TrimSuffixFilter(Str(v), []).value, []) == TrimSuffixFilter(Str(v), [])
  {
    TrimRightFuncFixed(TrimRight(v, Blanks), c => c in Blanks);
  }

  /** Removing an exact prefix is not idempotent: `"aab"` loses one `"a"` per call. */
  lemma {:induction false} TrimPrefixOnce()
    ensures TrimPrefixFilter(Str("aab"), [Str("a")]) == Done(Str("ab"))
    ensures TrimPrefixFilter(Str("ab"), [Str("a")]) == Done(Str("b"))
  {
    assert HasPrefix("aab", "a") && "aab"[1..] == "ab";
    assert HasPrefix("ab", "a") && "ab"[1..] == "b";
  }

  // ---------------------------------------------------------------------------
  // split.go
  // ---------------------------------------------------------------------------

  /** `getParamString`: argument `index`, which must exist and be a string. */
  function GetParamString(params: seq<Value>, index: nat): (r: Result<string, string>)
    ensures r.Ok? <==> index < |params| && params[index].Str?
    ensures r.Ok? ==> r.value == params[index].s
  {
    if |params| <= index then Err("missing parameter")
    else if params[index].Str? then Ok(params[index].s)
    else Err("expected string")
  }

  /** `Split`: a string split on the separator given as the first argument. */
  function Split(value: Value, params: seq<Value>): (r: FilterOut)
    ensures r.Returned?
    ensures r.err.None? <==> value.Str? && GetParamString(params, 0).Ok?
    ensures r.err.Some? ==> r.value == Nil
    ensures r.err.None? ==> r.value.StrList?
    ensures r.err.None? && |params[0].s| > 0 ==>
      Join(r.value.strs, params[0].s) == value.s && |r.value.strs| == Count(value.s, params[0].s) + 1
  {
    match value
    case Str(v) =>
      (match GetParamString(params, 0)
       case Err(e) => Fail(Nil, "failed to get separator: " + e)
       case Ok(sep) =>
         if |sep| > 0 then
           SplitJoin(v, sep);
           SplitCount(v, sep);
           Done(StrList(Strings.Split(v, sep)))
         else Done(StrList(Strings.Split(v, sep))))
    case _ => Fail(Nil, "join function expected array of strings")
  }

  /** With a one-byte separator, splitting the joined pieces gives them back when none of
      them holds the separator. */
  lemma {:induction false} SplitUndoesJoin(parts: seq<string>, c: char)
    requires |parts| >= 1 && forall k :: 0 <= k < |parts| ==> c !in parts[k]
    ensures Split(Str(Join(parts, [c])), [Str([c])]) == Done(StrList(parts))
  {
    JoinSplit(parts, c);
  }

  // ---------------------------------------------------------------------------
  // title.go
  // ---------------------------------------------------------------------------

  /** The built-in acronyms, in order. */
  const Acronyms: seq<string> := ["ai", "gpt", "api", "json", "xml", "html", "css"]

  /** `foundAcronym`: the word equals some acronym, ignoring case. */
  predicate FoundAcronym(word: string, acronyms: seq<string>) {
    exists i :: 0 <= i < |acronyms| && EqualFold(word, acronyms[i])
  }

  /** One word of `slugToTitle`: an acronym is upper-cased whole, any other non-empty
      word has its first character upper-cased, and the empty word stays empty. */
  function TitleWord(word: string, acronyms: seq<string>): (r: string)
    ensures |r| == |word|
    ensures forall k :: 0 <= k < |word| ==> ToLowerChar(r[k]) == ToLowerChar(word[k])
    ensures forall k :: 1 <= k < |word| && !FoundAcronym(ToLower(word), acronyms) ==> r[k] == word[k]
    ensures |word| > 0 && !FoundAcronym(ToLower(word), acronyms) ==> !IsLower(r[0])
    ensures FoundAcronym(ToLower(word), acronyms) ==> forall k :: 0 <= k < |r| ==> !IsLower(r[k])
  {
    if word == "" then ""
    else if FoundAcronym(ToLower(word), acronyms) then ToUpper(ToLower(word))
    else [ToUpperChar(word[0])] + word[1..]
  }

  /** `slugToTitle`: the `-`-separated words, each titled, joined with single spaces. */
  function SlugToTitle(slug: string, acronyms: seq<string>): (r: string)
  {
    var words := Strings.Split(slug, "-");
    Join(TitleWords(words, acronyms), " ")
  }

  function TitleWords(words: seq<string>, acronyms: seq<string>): (r: seq<string>)
    ensures |r| == |words|
    ensures forall k :: 0 <= k < |words| ==> r[k] == TitleWord(words[k], acronyms)
  {
    seq(|words|, k requires 0 <= k < |words| => TitleWord(words[k], acronyms))
  }

  /** `Title`: the value read as a string and the extra acronyms read as a list of strings
      through the package helpers; the title of the slug with the built-in acronyms
      followed by the extra ones. */
  function Title(helpers: Functions.Helpers, value: Value, params: seq<Value>): (r: FilterOut)
    ensures r.Returned? && (r.err.Some? ==> r.value == Nil)
    ensures r.err.None? <==> helpers.valueString(value).Ok? && helpers.paramStringList(params).Ok?
    ensures r.err.None? ==> (
      && r.value.Str?
      && r.value.s == SlugToTitle(helpers.valueString(value).value, Acronyms + helpers.paramStringList(params).value))
  {
    match helpers.valueString(value)
    case Err(e) => Fail(Nil, e)
    case Ok(slug) =>
      match helpers.paramStringList(params)
      case Err(e) => Fail(Nil, e)
      case Ok(provided) => Done(Str(SlugToTitle(slug, Acronyms + provided)))
  }

  /** A byte absent from every piece and from the separator is absent from the join. */
  lemma {:induction false} JoinFree(parts: seq<string>, sep: string, c: char)
    requires c !in sep && forall k :: 0 <= k < |parts| ==> c !in parts[k]
    ensures c !in Join(parts, sep)
    decreases |parts|
  {
    if |parts| > 1 {
      JoinFree(parts[1..], sep, c);
    }
  }

  /** The words of a title are the titled words of the slug: splitting the title on
      spaces gives one word per piece of the slug, when the slug has no spaces; the
      title never holds a hyphen. */
  lemma {:induction false} TitleWordsSpec(slug: string, acronyms: seq<string>)
    ensures '-' !in SlugToTitle(slug, acronyms)
    ensures ' ' !in slug ==>
      Strings.Split(SlugToTitle(slug, acronyms), " ") == TitleWords(Strings.Split(slug, "-"), acronyms)
  {
    var words := Strings.Split(slug, "-");
    var tw := TitleWords(words, acronyms);
    SplitPiecesFree(slug, "-");
    forall k | 0 <= k < |words|
      ensures '-' !in words[k] && '-' !in tw[k]
    {
      NoContainsChar(words[k], '-');
      TitleKeeps(words[k], acronyms, '-');
    }
    JoinFree(tw, " ", '-');
    if ' ' !in slug {
      SplitPiecesIn(slug, "-");
      forall k | 0 <= k < |tw|
        ensures ' ' !in tw[k]
      {
        assert forall x :: x in words[k] ==> x in slug;
        TitleKeeps(words[k], acronyms, ' ');
      }
      JoinSplit(tw, ' ');
    }
  }

  /** A character that is not a letter appears in a titled word only where it appeared in
      the word. */
  lemma {:induction false} TitleKeeps(word: string, acronyms: seq<string>, c: char)
    requires !IsLetter(c) && c !in word
    ensures c !in TitleWord(word, acronyms)
  {
    var r := TitleWord(word, acronyms);
    forall k | 0 <= k < |r|
      ensures r[k] != c
    {
      assert ToLowerChar(r[k]) == ToLowerChar(word[k]);
    }
  }

  /** Every byte of every piece is a byte of the input. */
  lemma {:induction false} SplitPiecesIn(s: string, sep: string)
    requires |sep| > 0
    ensures forall k, x :: 0 <= k < |Strings.Split(s, sep)| && x in Strings.Split(s, sep)[k] ==> x in s
  {
    forall k, x | 0 <= k < |Strings.Split(s, sep)| && x in Strings.Split(s, sep)[k]
      ensures x in s
    {
      JoinHolds(Strings.Split(s, sep), sep, k, x);
      SplitJoin(s, sep);
    }
  }

  lemma {:induction false} JoinHolds(parts: seq<string>, sep: string, k: nat, x: char)
    requires k < |parts| && x in parts[k]
    ensures x in Join(parts, sep)
    decreases |parts|
  {
    if |parts| > 1 && k > 0 {
      JoinHolds(parts[1..], sep, k - 1, x);
    }
  }

  // ---------------------------------------------------------------------------
  // slug.go
  // ---------------------------------------------------------------------------

  /** `\s` of Go's regular expressions: tab, newline, form feed, carriage return, space.
      Unlike `strings.TrimSpace` it does not include the vertical tab. */
  predicate RegexSpace(c: char) {
    c == '\t' || c == '\n' || c == '\U{000C}' || c == '\r' || c == ' '
  }

  /** The class `[a-z0-9\s\-\.]` that the first replacement keeps. */
  predicate SlugKeeps(c: char) {
    IsLower(c) || IsDigit(c) || RegexSpace(c) || c == '-' || c == '.'
  }

  /** The bytes a slug is made of. */
  predicate SlugChar(c: char) {
    IsLower(c) || IsDigit(c) || c == '-' || c == '.'
  }

  predicate NonDigit(c: char) {
    !IsDigit(c)
  }

  predicate IsHyphen(c: char) {
    c == '-'
  }

  /** Bytes i and i + 1 are both c. */
  predicate Pair(s: string, i: int, c: char)
    requires 0 <= i < |s| - 1
  {
    s[i] == c && s[i + 1] == c
  }

  /** Bytes i and i + 1 are both in the class p. */
  predicate PairIn(s: string, i: int, p: char -> bool)
    requires 0 <= i < |s| - 1
  {
    p(s[i]) && p(s[i + 1])
  }

  /** `[^a-z0-9\s\-\.]` replaced by a space. */
  function Blank(s: string): (r: string)
    ensures |r| == |s|
    ensures forall i :: 0 <= i < |s| ==> r[i] == (if SlugKeeps(s[i]) then s[i] else ' ')
  {
    seq(|s|, i requires 0 <= i < |s| => if SlugKeeps(s[i]) then s[i] else ' ')
  }

  /** The replacement of the pattern `x+`, for a class x, by one `rep`: every maximal run
      of bytes in the class becomes a single `rep`. */
  function CollapseRuns(s: string, p: char -> bool, rep: char): (r: string)
    ensures |r| == 0 <==> |s| == 0
    ensures |s| > 0 && !p(s[0]) ==> r[0] == s[0]
    ensures |s| > 0 && p(s[0]) ==> r[0] == rep
    decreases |s|
  {
    if |s| == 0 then ""
    else if p(s[0]) then [rep] + CollapseRuns(TrimLeftFunc(s, p), p, rep)
    else [s[0]] + CollapseRuns(s[1..], p, rep)
  }

  /** Each byte of `r` is `rep` or a byte of `s` outside the class. */
  ghost predicate FromClass(r: string, s: string, p: char -> bool, rep: char) {
    forall i :: 0 <= i < |r| ==> r[i] == rep || (!p(r[i]) && r[i] in s)
  }

  /** Each byte of the collapsed text is `rep` or a byte of the input outside the class. */
  lemma {:induction false} CollapseFrom(s: string, p: char -> bool, rep: char)
    ensures FromClass(CollapseRuns(s, p, rep), s, p, rep)
    decreases |s|
  {
    if |s| > 0 {
      var t := if p(s[0]) then TrimLeftFunc(s, p) else s[1..];
      CollapseFrom(t, p, rep);
      var r := CollapseRuns(s, p, rep);
      assert r == [r[0]] + CollapseRuns(t, p, rep);
      assert r[0] == rep || (!p(r[0]) && r[0] == s[0]);
      FromSuffix(r, s, CollapseRuns(t, p, rep), t, p, rep);
    }
  }

  /** A first byte of the right kind in front of the bytes of a suffix. */
  lemma {:induction false} FromSuffix(r: string, s: string, rt: string, t: string, p: char -> bool, rep: char)
    requires |s| > 0 && |t| <= |s| && t == s[|s| - |t|..]
    requires |r| > 0 && r == [r[0]] + rt && (r[0] == rep || (!p(r[0]) && r[0] == s[0]))
    requires FromClass(rt, t, p, rep)
    ensures FromClass(r, s, p, rep)
  {
    var j := |s| - |t|;
    forall i | 0 <= i < |r|
      ensures r[i] == rep || (!p(r[i]) && r[i] in s)
    {
      if i == 0 {
        assert s[0] in s;
      } else {
        var x := rt[i - 1];
        assert r[i] == x;
        if x != rep {
          var k :| 0 <= k < |t| && t[k] == x;
          assert s[j + k] == x;
        }
      }
    }
  }

  /** When `rep` is itself in the class, no two bytes of the class are left side by side. */
  lemma {:induction false} CollapseNoPairs(s: string, p: char -> bool, rep: char)
    requires p(rep)
    ensures forall i :: 0 <= i < |CollapseRuns(s, p, rep)| - 1 ==> !PairIn(CollapseRuns(s, p, rep), i, p)
    decreases |s|
  {
    var r := CollapseRuns(s, p, rep);
    if |s| > 0 {
      var t := if p(s[0]) then TrimLeftFunc(s, p) else s[1..];
      CollapseNoPairs(t, p, rep);
      var rt := CollapseRuns(t, p, rep);
      assert r == [r[0]] + rt;
      assert |rt| > 0 ==> !p(r[0]) || !p(rt[0]);
      PairsShift(r, rt, p);
    }
  }

  /** A byte put in front of a text without pairs makes none when it and the first byte
      are not both in the class. */
  lemma {:induction false} PairsShift(r: string, rt: string, p: char -> bool)
    requires |r| == |rt| + 1 && r[1..] == rt
    requires |rt| > 0 ==> !p(r[0]) || !p(rt[0])
    requires forall i :: 0 <= i < |rt| - 1 ==> !PairIn(rt, i, p)
    ensures forall i :: 0 <= i < |r| - 1 ==> !PairIn(r, i, p)
  {
    forall i | 0 <= i < |r| - 1
      ensures !PairIn(r, i, p)
    {
      if i > 0 {
        assert !PairIn(rt, i - 1, p);
        assert r[i] == rt[i - 1] && r[i + 1] == rt[i];
      }
    }
  }

  /** The length of the run of dots starting at i. */
  function DotRun(s: string, i: nat): (n: nat)
    requires i <= |s|
    ensures i + n <= |s|
    ensures forall k :: i <= k < i + n ==> s[k] == '.'
    ensures i + n < |s| ==> s[i + n] != '.'
    decreases |s| - i
  {
    if i < |s| && s[i] == '.' then 1 + DotRun(s, i + 1) else 0
  }

  /** A match of `(L)\.+(R)` at i: where it ends and the byte its second group took. */
  datatype DotMatch = DotMatch(end: nat, right: char)

  /** Leftmost-first matching of `(L)\.+(R)` at position i: the left byte, the whole run
      of dots and the byte after it; when that byte is not in R and the run has two dots
      or more, the run gives its last dot back to R. */
  function MatchDots(s: string, i: nat, left: char -> bool, right: char -> bool): (m: Option<DotMatch>)
    requires i < |s|
    ensures m.Some? ==> i + 3 <= m.value.end <= |s| && left(s[i]) && s[i + 1] == '.'
    ensures m.Some? ==> right(m.value.right) && m.value.right == s[m.value.end - 1]
    ensures m.Some? ==> forall k :: i + 1 <= k < m.value.end - 1 ==> s[k] == '.'
    ensures i + 1 < |s| && s[i + 1] != '.' ==> m.None?
  {
    if i + 1 < |s| && left(s[i]) && s[i + 1] == '.' then
      var n := DotRun(s, i + 1);
      if i + 1 + n < |s| && right(s[i + 1 + n]) then Some(DotMatch(i + 2 + n, s[i + 1 + n]))
      else if n >= 2 && right('.') then Some(DotMatch(i + 1 + n, '.'))
      else None
    else None
  }

  /** `ReplaceAllString(s, "$1 $2")` for `(L)\.+(R)` from position i: matches do not
      overlap, and the search resumes after each one. */
  function ReplaceDots(s: string, i: nat, left: char -> bool, right: char -> bool): (r: string)
    requires i <= |s|
    ensures forall k :: 0 <= k < |r| ==> r[k] == ' ' || r[k] in s
    decreases |s| - i
  {
    if i == |s| then ""
    else match MatchDots(s, i, left, right)
      case Some(m) => [s[i], ' ', m.right] + ReplaceDots(s, m.end, left, right)
      case None => [s[i]] + ReplaceDots(s, i + 1, left, right)
  }

  /** The three dot rewrites in order: dots between two non-digits, after a non-digit and
      before a digit, after a digit and before a non-digit. */
  function RewriteDots(s: string): (r: string)
    ensures forall k :: 0 <= k < |r| ==> r[k] == ' ' || r[k] in s
  {
    var a := ReplaceDots(s, 0, NonDigit, NonDigit);
    var b := ReplaceDots(a, 0, NonDigit, IsDigit);
    ReplaceDots(b, 0, IsDigit, NonDigit)
  }

  /** Every byte is a slug byte or a space. */
  ghost predicate SpacedSlug(s: string) {
    forall k :: 0 <= k < |s| ==> SlugChar(s[k]) || s[k] == ' '
  }

  /** The first stage of `titleToSlug`: lower case, bytes outside the class blanked, white
      space runs made single spaces, and the ends trimmed. */
  function SpacedWords(title: string): (r: string)
    ensures SpacedSlug(r)
    ensures forall k :: 0 <= k < |r| - 1 ==> !Pair(r, k, ' ')
  {
    var spaced := CollapseRuns(Blank(ToLower(title)), RegexSpace, ' ');
    CollapsedSpacedSlug(Blank(ToLower(title)));
    var trimmed := TrimSpace(spaced);
    InfixSpacedSlug(trimmed, spaced);
    InfixAdjacent(trimmed, spaced);
    trimmed
  }

  /** Collapsing the white space of blanked text leaves slug bytes and single spaces. */
  lemma {:induction false} CollapsedSpacedSlug(kept: string)
    requires forall k :: 0 <= k < |kept| ==> SlugKeeps(kept[k])
    ensures SpacedSlug(CollapseRuns(kept, RegexSpace, ' '))
    ensures forall k :: 0 <= k < |CollapseRuns(kept, RegexSpace, ' ')| - 1 ==> !Pair(CollapseRuns(kept, RegexSpace, ' '), k, ' ')
  {
    var r := CollapseRuns(kept, RegexSpace, ' ');
    CollapseFrom(kept, RegexSpace, ' ');
    forall k | 0 <= k < |r|
      ensures SlugChar(r[k]) || r[k] == ' '
    {
      if r[k] != ' ' {
        var j :| 0 <= j < |kept| && kept[j] == r[k];
        assert SlugKeeps(kept[j]);
      }
    }
    CollapseNoPairs(kept, RegexSpace, ' ');
    forall k | 0 <= k < |r| - 1
      ensures !Pair(r, k, ' ')
    {
      assert !PairIn(r, k, RegexSpace);
    }
  }

  /** An infix of text made of slug bytes and spaces is made of them too. */
  lemma {:induction false} InfixSpacedSlug(r: string, s: string)
    requires IsInfix(r, s) && SpacedSlug(s)
    ensures SpacedSlug(r)
  {
    var i :| SliceAt(s, i, r);
    forall k | 0 <= k < |r|
      ensures SlugChar(r[k]) || r[k] == ' '
    {
      assert r[k] == s[i + k];
    }
  }

  /** An infix keeps no pair of adjacent bytes its host does not have. */
  lemma {:induction false} InfixAdjacent(r: string, s: string)
    requires IsInfix(r, s)
    requires forall k :: 0 <= k < |s| - 1 ==> !Pair(s, k, ' ')
    ensures forall k :: 0 <= k < |r| - 1 ==> !Pair(r, k, ' ')
  {
    var i :| SliceAt(s, i, r);
    forall k | 0 <= k < |r| - 1
      ensures !Pair(r, k, ' ')
    {
      assert r[k] == s[i + k] && r[k + 1] == s[i + k + 1];
      assert !Pair(s, i + k, ' ');
    }
  }

  /** The last stage of `titleToSlug`: spaces become hyphens and hyphen runs single
      hyphens. */
  function Hyphenate(s: string): (r: string)
    requires SpacedSlug(s)
    ensures forall k :: 0 <= k < |r| ==> SlugChar(r[k])
    ensures forall k :: 0 <= k < |r| - 1 ==> !Pair(r, k, '-')
  {
    ReplaceAllChar(s, ' ', '-');
    var hyphened := ReplaceAll(s, " ", "-");
    var r := CollapseRuns(hyphened, IsHyphen, '-');
    CollapseFrom(hyphened, IsHyphen, '-');
    CollapseNoPairs(hyphened, IsHyphen, '-');
    forall k | 0 <= k < |r| - 1
      ensures !Pair(r, k, '-')
    {
      assert !PairIn(r, k, IsHyphen);
    }
    r
  }

  /** `titleToSlug`. */
  function TitleToSlug(title: string): (r: string)
    ensures forall k :: 0 <= k < |r| ==> SlugChar(r[k])
    ensures forall k :: 0 <= k < |r| ==> !IsSpace(r[k]) && !IsUpper(r[k])
    ensures forall k :: 0 <= k < |r| - 1 ==> !Pair(r, k, '-')
  {
    var words := SpacedWords(title);
    RewriteDotsSpacedSlug(words);
    var r := Hyphenate(RewriteDots(words));
    forall k | 0 <= k < |r|
      ensures !IsSpace(r[k]) && !IsUpper(r[k])
    {
      SlugCharPlain(r[k]);
    }
    r
  }

  lemma {:induction false} SlugCharPlain(c: char)
    requires SlugChar(c)
    ensures !IsSpace(c) && !IsUpper(c)
  {
  }

  /** The dot rewrites only add spaces. */
  lemma {:induction false} RewriteDotsSpacedSlug(s: string)
    requires SpacedSlug(s)
    ensures SpacedSlug(RewriteDots(s))
  {
    var r := RewriteDots(s);
    forall k | 0 <= k < |r|
      ensures SlugChar(r[k]) || r[k] == ' '
    {
      if r[k] != ' ' {
        var j :| 0 <= j < |s| && s[j] == r[k];
      }
    }
  }

  lemma {:induction false} InfixChars(r: string, s: string)
    requires IsInfix(r, s)
    ensures forall k :: 0 <= k < |r| ==> r[k] in s
  {
    var i :| SliceAt(s, i, r);
    forall k | 0 <= k < |r|
      ensures r[k] in s
    {
      assert r[k] == s[i + k];
    }
  }

  /** `Slug`: the value read as a string through the package helper, then made a slug. */
  function Slug(helpers: Functions.Helpers, value: Value, params: seq<Value>): (r: FilterOut)
    ensures r.Returned? && (r.err.Some? ==> r.value == Nil)
    ensures r.err.None? <==> helpers.valueString(value).Ok?
    ensures r.err.None? ==> r.value == Str(TitleToSlug(helpers.valueString(value).value))
  {
    match helpers.valueString(value)
    case Err(e) => Fail(Nil, e)
    case Ok(s) => Done(Str(TitleToSlug(s)))
  }

  // ---------------------------------------------------------------------------
  // Slugs and titles are inverse on plain slugs
  // ---------------------------------------------------------------------------

  /** A word of a plain slug: non-empty, lower-case letters and digits only. */
  predicate PlainWord(w: string) {
    |w| > 0 && forall i :: 0 <= i < |w| ==> IsLower(w[i]) || IsDigit(w[i])
  }

  lemma {:induction false} ToLowerConcat(a: string, b: string)
    ensures ToLower(a + b) == ToLower(a) + ToLower(b)
  {
  }

  lemma {:induction false} MapCharConcat(a: string, b: string, x: char, y: char)
    ensures MapChar(a + b, x, y) == MapChar(a, x, y) + MapChar(b, x, y)
  {
  }

  /** Lower-casing a join of titled plain words gives the join of the words. */
  lemma {:induction false} LowerJoin(tw: seq<string>, ws: seq<string>, sep: string)
    requires |tw| == |ws|
    requires forall k :: 0 <= k < |ws| ==> ToLower(tw[k]) == ws[k]
    requires ToLower(sep) == sep
    ensures ToLower(Join(tw, sep)) == Join(ws, sep)
    decreases |ws|
  {
    if |ws| > 1 {
      LowerJoin(tw[1..], ws[1..], sep);
      ToLowerConcat(tw[0] + sep, Join(tw[1..], sep));
      ToLowerConcat(tw[0], sep);
    }
  }

  /** Replacing spaces by hyphens in a join with spaces of words without spaces gives
      their join with hyphens. */
  lemma {:induction false} HyphenJoin(ws: seq<string>)
    requires forall k :: 0 <= k < |ws| ==> ' ' !in ws[k]
    ensures MapChar(Join(ws, " "), ' ', '-') == Join(ws, "-")
    decreases |ws|
  {
    forall k | 0 <= k < |ws|
      ensures MapChar(ws[k], ' ', '-') == ws[k]
    {
    }
    if |ws| > 1 {
      HyphenJoin(ws[1..]);
      MapCharConcat(ws[0] + " ", Join(ws[1..], " "), ' ', '-');
      MapCharConcat(ws[0], " ", ' ', '-');
    }
  }

  /** Every byte of a join is in a class that holds every byte of the pieces and of the
      separator. */
  lemma {:induction false} JoinClass(ws: seq<string>, sep: string, P: char -> bool)
    requires forall k, i :: 0 <= k < |ws| && 0 <= i < |ws[k]| ==> P(ws[k][i])
    requires forall i :: 0 <= i < |sep| ==> P(sep[i])
    ensures forall i :: 0 <= i < |Join(ws, sep)| ==> P(Join(ws, sep)[i])
    decreases |ws|
  {
    if |ws| > 1 {
      JoinClass(ws[1..], sep, P);
      var rest := Join(ws[1..], sep);
      var j := Join(ws, sep);
      assert j == ws[0] + sep + rest;
      forall i | 0 <= i < |j|
        ensures P(j[i])
      {
        if i < |ws[0]| {
          assert j[i] == ws[0][i];
        } else if i < |ws[0]| + |sep| {
          assert j[i] == sep[i - |ws[0]|];
        } else {
          assert j[i] == rest[i - |ws[0]| - |sep|];
        }
      }
    } else if |ws| == 1 {
      assert Join(ws, sep) == ws[0];
    }
  }

  /** Joining non-empty words free of c with c never puts two c side by side, and the
      join starts with the first word's first byte and ends with the last word's last. */
  lemma {:induction false} JoinSingleSeparators(ws: seq<string>, c: char)
    requires |ws| >= 1
    requires forall k :: 0 <= k < |ws| ==> |ws[k]| > 0 && c !in ws[k]
    ensures |Join(ws, [c])| > 0 && Join(ws, [c])[0] == ws[0][0]
    ensures Join(ws, [c])[|Join(ws, [c])| - 1] == ws[|ws| - 1][|ws[|ws| - 1]| - 1]
    ensures forall i :: 0 <= i < |Join(ws, [c])| - 1 ==> !Pair(Join(ws, [c]), i, c)
    decreases |ws|
  {
    var j := Join(ws, [c]);
    if |ws| > 1 {
      var rest := Join(ws[1..], [c]);
      JoinSingleSeparators(ws[1..], c);
      assert j == ws[0] + [c] + rest;
      var n := |ws[0]|;
      forall i | 0 <= i < |j| - 1
        ensures !Pair(j, i, c)
      {
        if i < n {
          assert j[i] == ws[0][i];
          assert ws[0][i] in ws[0];
        } else if i == n {
          assert j[i + 1] == rest[0] == ws[1][0];
          assert ws[1][0] in ws[1];
        } else {
          assert j[i] == rest[i - n - 1] && j[i + 1] == rest[i - n];
          assert !Pair(rest, i - n - 1, c);
        }
      }
    }
  }

  /** Collapsing runs changes nothing in text where each byte of the class is `rep` and
      no two of them are adjacent. */
  lemma {:induction false} CollapseFixed(s: string, p: char -> bool, rep: char)
    requires forall i :: 0 <= i < |s| && p(s[i]) ==> s[i] == rep
    requires forall i :: 0 <= i < |s| - 1 ==> !PairIn(s, i, p)
    ensures CollapseRuns(s, p, rep) == s
    decreases |s|
  {
    if |s| > 0 {
      var t := s[1..];
      assert forall i :: 0 <= i < |t| ==> t[i] == s[i + 1];
      forall i | 0 <= i < |t| - 1
        ensures !PairIn(t, i, p)
      {
        assert !PairIn(s, i + 1, p);
      }
      CollapseFixed(t, p, rep);
      if p(s[0]) {
        if |t| > 0 {
          assert !PairIn(s, 0, p);
        }
        TrimLeftFuncFixed(t, p);
        assert TrimLeftFunc(s, p) == TrimLeftFunc(t, p);
        assert s[0] == rep;
      }
      assert s == [s[0]] + t;
    }
  }

  /** The dot rewrites change nothing in text without dots. */
  lemma {:induction false} ReplaceDotsAbsent(s: string, i: nat, left: char -> bool, right: char -> bool)
    requires i <= |s| && '.' !in s
    ensures ReplaceDots(s, i, left, right) == s[i..]
    decreases |s| - i
  {
    if i < |s| {
      ReplaceDotsAbsent(s, i + 1, left, right);
      assert MatchDots(s, i, left, right).None?;
      assert s[i..] == [s[i]] + s[i + 1..];
    }
  }

  /** A plain word holds no separator, space or dot. */
  lemma {:induction false} PlainFree(ws: seq<string>)
    requires forall k :: 0 <= k < |ws| ==> PlainWord(ws[k])
    ensures forall k :: 0 <= k < |ws| ==> '-' !in ws[k] && ' ' !in ws[k] && '.' !in ws[k]
  {
  }

  /** A titled plain word lower-cases back to the word. */
  lemma {:induction false} TitleWordLower(w: string, acronyms: seq<string>)
    requires PlainWord(w)
    ensures ToLower(TitleWord(w, acronyms)) == w
  {
  }

  /** Text whose bytes are all in the kept class is not blanked. */
  lemma {:induction false} BlankKeeps(s: string)
    requires forall i :: 0 <= i < |s| ==> SlugKeeps(s[i])
    ensures Blank(s) == s
  {
  }

  /** The title of a plain slug lower-cases back to its words joined with spaces. */
  lemma {:induction false} TitleOfPlain(ws: seq<string>, acronyms: seq<string>)
    requires |ws| >= 1 && forall k :: 0 <= k < |ws| ==> PlainWord(ws[k])
    ensures ToLower(SlugToTitle(Join(ws, "-"), acronyms)) == Join(ws, " ")
  {
    PlainFree(ws);
    JoinSplit(ws, '-');
    var tw := TitleWords(ws, acronyms);
    assert SlugToTitle(Join(ws, "-"), acronyms) == Join(tw, " ");
    forall k | 0 <= k < |ws|
      ensures ToLower(tw[k]) == ws[k]
    {
      TitleWordLower(ws[k], acronyms);
    }
    LowerJoin(tw, ws, " ");
  }

  /** A word of a slug's title: non-empty, slug bytes only. */
  predicate SlugWord(w: string) {
    |w| > 0 && forall i :: 0 <= i < |w| ==> SlugChar(w[i])
  }

  /** Slug words joined with single spaces: slug bytes and single spaces, with a word
      byte at each end. */
  lemma {:induction false} SpacedJoin(ws: seq<string>)
    requires |ws| >= 1 && forall k :: 0 <= k < |ws| ==> SlugWord(ws[k])
    ensures forall i :: 0 <= i < |Join(ws, " ")| ==> SlugChar(Join(ws, " ")[i]) || Join(ws, " ")[i] == ' '
    ensures forall i :: 0 <= i < |Join(ws, " ")| - 1 ==> !Pair(Join(ws, " "), i, ' ')
    ensures |Join(ws, " ")| > 0 && !IsSpace(Join(ws, " ")[0]) && !IsSpace(Join(ws, " ")[|Join(ws, " ")| - 1])
  {
    JoinClass(ws, " ", c => SlugChar(c) || c == ' ');
    forall k | 0 <= k < |ws|
      ensures ' ' !in ws[k]
    {
    }
    JoinSingleSeparators(ws, ' ');
    assert ws[0][0] in ws[0];
    var last := ws[|ws| - 1];
    assert last[|last| - 1] in last;
  }

  /** A title whose lower case is slug words joined with single spaces passes the first
      stage as that text. */
  lemma {:induction false} SpacedOfWords(title: string, ws: seq<string>)
    requires |ws| >= 1 && forall k :: 0 <= k < |ws| ==> SlugWord(ws[k])
    requires ToLower(title) == Join(ws, " ")
    ensures SpacedWords(title) == Join(ws, " ")
  {
    var spaced := Join(ws, " ");
    SpacedJoin(ws);
    BlankKeeps(spaced);
    SingleSpacesStay(spaced);
    TrimSpaceFixed(spaced);
  }

  /** Slug bytes with single spaces have no white space run to collapse. */
  lemma {:induction false} SingleSpacesStay(spaced: string)
    requires SpacedSlug(spaced)
    requires forall i :: 0 <= i < |spaced| - 1 ==> !Pair(spaced, i, ' ')
    ensures CollapseRuns(spaced, RegexSpace, ' ') == spaced
  {
    forall i | 0 <= i < |spaced| && RegexSpace(spaced[i])
      ensures spaced[i] == ' '
    {
    }
    forall i | 0 <= i < |spaced| - 1
      ensures !PairIn(spaced, i, RegexSpace)
    {
      assert !Pair(spaced, i, ' ');
    }
    CollapseFixed(spaced, RegexSpace, ' ');
  }

  /** Slug words joined with single spaces pass the last stage as their join with hyphens,
      when that join has no doubled hyphen. */
  lemma {:induction false} HyphenateWords(ws: seq<string>)
    requires forall k :: 0 <= k < |ws| ==> SlugWord(ws[k])
    requires forall i :: 0 <= i < |Join(ws, "-")| - 1 ==> !Pair(Join(ws, "-"), i, '-')
    ensures SpacedSlug(Join(ws, " "))
    ensures Hyphenate(Join(ws, " ")) == Join(ws, "-")
  {
    JoinClass(ws, " ", c => SlugChar(c) || c == ' ');
    forall k | 0 <= k < |ws|
      ensures ' ' !in ws[k]
    {
    }
    HyphenJoin(ws);
    ReplaceAllChar(Join(ws, " "), ' ', '-');
    var slug := Join(ws, "-");
    forall i | 0 <= i < |slug| - 1
      ensures !PairIn(slug, i, IsHyphen)
    {
      assert !Pair(slug, i, '-');
    }
    CollapseFixed(slug, IsHyphen, '-');
  }

  /** Plain words joined with single spaces pass the last stage as their join with
      hyphens. */
  lemma {:induction false} HyphenatePlain(ws: seq<string>)
    requires |ws| >= 1 && forall k :: 0 <= k < |ws| ==> PlainWord(ws[k])
    ensures SpacedSlug(Join(ws, " "))
    ensures Hyphenate(Join(ws, " ")) == Join(ws, "-")
  {
    PlainFree(ws);
    JoinSingleSeparators(ws, '-');
    HyphenateWords(ws);
  }

  /** Plain words joined with spaces have no dots to rewrite. */
  lemma {:induction false} RewriteDotsPlain(ws: seq<string>)
    requires forall k :: 0 <= k < |ws| ==> PlainWord(ws[k])
    ensures RewriteDots(Join(ws, " ")) == Join(ws, " ")
  {
    var spaced := Join(ws, " ");
    PlainFree(ws);
    JoinFree(ws, " ", '.');
    ReplaceDotsAbsent(spaced, 0, NonDigit, NonDigit);
    ReplaceDotsAbsent(spaced, 0, NonDigit, IsDigit);
    ReplaceDotsAbsent(spaced, 0, IsDigit, NonDigit);
  }

  /** Every dot stands alone between two digits. */
  ghost predicate DotsBetweenDigits(s: string) {
    forall j :: 0 <= j < |s| && s[j] == '.' ==> 0 < j < |s| - 1 && IsDigit(s[j - 1]) && IsDigit(s[j + 1])
  }

  /** A rewrite whose left or right class excludes digits leaves text alone in which
      every dot stands between two digits. */
  lemma {:induction false} DigitDotsStay(s: string, i: nat, left: char -> bool, right: char -> bool)
    requires i <= |s| && DotsBetweenDigits(s)
    requires (forall c :: left(c) ==> !IsDigit(c)) || (forall c :: right(c) ==> !IsDigit(c))
    ensures ReplaceDots(s, i, left, right) == s[i..]
    decreases |s| - i
  {
    if i < |s| {
      if i + 1 < |s| && s[i + 1] == '.' {
        assert IsDigit(s[i]) && IsDigit(s[i + 2]);
        assert DotRun(s, i + 2) == 0;
        assert DotRun(s, i + 1) == 1;
      }
      assert MatchDots(s, i, left, right).None?;
      DigitDotsStay(s, i + 1, left, right);
      assert s[i..] == [s[i]] + s[i + 1..];
    }
  }

  /** A dot between two digits survives all three rewrites. */
  lemma {:induction false} DigitDotsSurvive(s: string)
    requires DotsBetweenDigits(s)
    ensures RewriteDots(s) == s
  {
    DigitDotsStay(s, 0, NonDigit, NonDigit);
    DigitDotsStay(s, 0, NonDigit, IsDigit);
    DigitDotsStay(s, 0, IsDigit, NonDigit);
  }

  /** A dot between two letters becomes a space, so a hyphen in the slug. */
  lemma {:induction false} LetterDotsSplit()
    ensures RewriteDots("a.b") == "a b"
  {
    assert DotRun("a.b", 2) == 0;
    assert DotRun("a.b", 1) == 1;
    var m := MatchDots("a.b", 0, NonDigit, NonDigit);
    assert m == Some(DotMatch(3, 'b'));
    assert ReplaceDots("a.b", 0, NonDigit, NonDigit) == "a b";
    assert ReplaceDots("a b", 0, NonDigit, IsDigit) == "a b";
    assert ReplaceDots("a b", 0, IsDigit, NonDigit) == "a b";
  }

  /** `titleToSlug` undoes `slugToTitle` on a slug of plain words joined by single hyphens,
      whatever the acronyms. */
  lemma {:induction false} SlugOfTitle(ws: seq<string>, acronyms: seq<string>)
    requires |ws| >= 1 && forall k :: 0 <= k < |ws| ==> PlainWord(ws[k])
    ensures TitleToSlug(SlugToTitle(Join(ws, "-"), acronyms)) == Join(ws, "-")
  {
    var title := SlugToTitle(Join(ws, "-"), acronyms);
    TitleOfPlain(ws, acronyms);
    SpacedOfWords(title, ws);
    RewriteDotsPlain(ws);
    HyphenatePlain(ws);
  }

  // ---------------------------------------------------------------------------
  // The package's test cases
  // ---------------------------------------------------------------------------

  /** The title of a slug whose words are given: the titled words joined with spaces. */
  lemma {:induction false} TitleOfWords(ws: seq<string>, acronyms: seq<string>)
    requires |ws| >= 1 && forall k :: 0 <= k < |ws| ==> '-' !in ws[k]
    ensures SlugToTitle(Join(ws, "-"), acronyms) == Join(TitleWords(ws, acronyms), " ")
  {
    JoinSplit(ws, '-');
  }

  /** A word that differs from every acronym in length is not one. */
  lemma {:induction false} NotAcronym(w: string, acronyms: seq<string>)
    requires forall i :: 0 <= i < |acronyms| ==> |acronyms[i]| != |w|
    ensures !FoundAcronym(ToLower(w), acronyms)
  {
    forall i | 0 <= i < |acronyms|
      ensures !EqualFold(ToLower(w), acronyms[i])
    {
      assert |ToLower(ToLower(w))| != |ToLower(acronyms[i])|;
    }
  }

  lemma {:induction false} TitleWordsHelloWorld()
    ensures TitleWords(["hello", "world"], Acronyms) == ["Hello", "World"]
  {
    CapitalWord("hello", 'H');
    CapitalWord("world", 'W');
    var tw := TitleWords(["hello", "world"], Acronyms);
    assert tw[0] == "Hello" && tw[1] == "World";
  }

  /** A word of a length no acronym has gets its first byte capitalised. */
  lemma {:induction false} CapitalWord(w: string, c: char)
    requires |w| > 0 && ToUpperChar(w[0]) == c
    requires forall i :: 0 <= i < |Acronyms| ==> |Acronyms[i]| != |w|
    ensures TitleWord(w, Acronyms) == [c] + w[1..]
  {
    NotAcronym(w, Acronyms);
  }

  /** `"hello-world"` is titled `"Hello World"`. */
  lemma {:induction false} TitleHelloWorld()
    ensures SlugToTitle("hello" + "-" + "world", Acronyms) == "Hello" + " " + "World"
  {
    var ws := ["hello", "world"];
    assert Join(ws, "-") == "hello" + "-" + "world";
    TitleOfWords(ws, Acronyms);
    TitleWordsHelloWorld();
    assert Join(["Hello", "World"], " ") == "Hello" + " " + "World";
  }

  lemma {:induction false} LowerHelloWorld()
    ensures ToLower("Hello World") == Join(["hello", "world"], " ")
  {
    assert Join(["hello", "world"], " ") == "hello world";
  }

  /** `"Hello World"` becomes `"hello-world"`. */
  lemma {:induction false} SlugHelloWorld()
    ensures TitleToSlug("Hello World") == "hello-world"
  {
    var ws := ["hello", "world"];
    LowerHelloWorld();
    PlainHelloWorld();
    SpacedOfWords("Hello World", ws);
    RewriteDotsPlain(ws);
    HyphenatePlain(ws);
  }

  lemma {:induction false} PlainHelloWorld()
    ensures PlainWord("hello") && PlainWord("world")
    ensures Join(["hello", "world"], "-") == "hello-world"
  {
  }

  lemma {:induction false} LowerGptPreview()
    ensures ToLower("GPT-4.5 Preview") == Join(["gpt-4.5", "preview"], " ")
    ensures DotsBetweenDigits(Join(["gpt-4.5", "preview"], " "))
  {
    LowerGpt();
    GptDots();
  }

  lemma {:induction false} LowerGpt()
    ensures ToLower("GPT-4.5 Preview") == "gpt-4.5 preview"
  {
  }

  lemma {:induction false} GptDots()
    ensures Join(["gpt-4.5", "preview"], " ") == "gpt-4.5 preview"
    ensures DotsBetweenDigits("gpt-4.5 preview")
  {
    assert "gpt-4.5 preview" == "gpt-4" + "." + "5 preview";
    DotBetween("gpt-4", "5 preview");
  }

  /** One dot between two digits in a text with no other dot. */
  lemma {:induction false} DotBetween(a: string, b: string)
    requires '.' !in a && '.' !in b
    requires |a| > 0 && IsDigit(a[|a| - 1]) && |b| > 0 && IsDigit(b[0])
    ensures DotsBetweenDigits(a + "." + b)
  {
    var s := a + "." + b;
    forall j | 0 <= j < |s| && j != |a|
      ensures s[j] != '.'
    {
      if j < |a| {
        assert s[j] == a[j];
      } else {
        assert s[j] == b[j - |a| - 1];
      }
    }
    assert s[|a| - 1] == a[|a| - 1] && s[|a| + 1] == b[0];
  }

  lemma {:induction false} HyphenGptPreview()
    ensures forall i :: 0 <= i < |Join(["gpt-4.5", "preview"], "-")| - 1 ==> !Pair(Join(["gpt-4.5", "preview"], "-"), i, '-')
    ensures Join(["gpt-4.5", "preview"], "-") == "gpt-4.5-preview"
  {
    var s := "gpt-4.5-preview";
    assert Join(["gpt-4.5", "preview"], "-") == s;
    forall i | 0 <= i < |s| - 1
      ensures !Pair(s, i, '-')
    {
      assert s[i] == '-' ==> i == 3 || i == 7;
    }
  }

  /** `"GPT-4.5 Preview"` becomes `"gpt-4.5-preview"`: the dot between digits stays. */
  lemma {:induction false} SlugGptPreview()
    ensures TitleToSlug("GPT-4.5 Preview") == "gpt-4.5-preview"
  {
    var ws := ["gpt-4.5", "preview"];
    LowerGptPreview();
    assert SlugWord(ws[0]) && SlugWord(ws[1]);
    HyphenGptPreview();
    SlugOfLowered("GPT-4.5 Preview", ws);
  }

  /** A title whose lower-case form is slug words separated by single spaces, with dots
      only between digits, becomes those words separated by hyphens. */
  lemma {:induction false} SlugOfLowered(title: string, ws: seq<string>)
    requires |ws| >= 1 && forall k :: 0 <= k < |ws| ==> SlugWord(ws[k])
    requires ToLower(title) == Join(ws, " ")
    requires DotsBetweenDigits(Join(ws, " "))
    requires forall i :: 0 <= i < |Join(ws, "-")| - 1 ==> !Pair(Join(ws, "-"), i, '-')
    ensures TitleToSlug(title) == Join(ws, "-")
  {
    SpacedOfWords(title, ws);
    DigitDotsSurvive(Join(ws, " "));
    HyphenateWords(ws);
  }

  lemma {:induction false} TitleWordsGptPreview()
    ensures TitleWords(["gpt", "4.5", "preview"], Acronyms) == ["GPT", "4.5", "Preview"]
  {
    GptWord();
    NotAcronymLead("4.5");
    PreviewWord();
    TitleThree("gpt", "4.5", "preview", Acronyms, "GPT", "4.5", "Preview");
  }

  lemma {:induction false} GptWord()
    ensures TitleWord("gpt", Acronyms) == "GPT"
  {
    AcronymWord("gpt", 1);
    assert ToUpper("gpt") == "GPT";
  }

  lemma {:induction false} PreviewWord()
    ensures TitleWord("preview", Acronyms) == "Preview"
  {
    CapitalWord("preview", 'P');
  }

  /** Three words titled one by one. */
  lemma {:induction false} TitleThree(a: string, b: string, c: string, acronyms: seq<string>, x: string, y: string, z: string)
    requires TitleWord(a, acronyms) == x && TitleWord(b, acronyms) == y && TitleWord(c, acronyms) == z
    ensures TitleWords([a, b, c], acronyms) == [x, y, z]
  {
  }

  /** `"gpt-4.5-preview"` is titled `"GPT 4.5 Preview"`: `gpt` is an acronym and `4.5`
      has nothing to capitalise. */
  lemma {:induction false} TitleGptPreview()
    ensures SlugToTitle("gpt" + "-" + "4.5" + "-" + "preview", Acronyms) == "GPT" + " " + "4.5" + " " + "Preview"
  {
    var ws := ["gpt", "4.5", "preview"];
    JoinThree("gpt", "4.5", "preview", "-");
    TitleOfWords(ws, Acronyms);
    TitleWordsGptPreview();
    JoinThree("GPT", "4.5", "Preview", " ");
  }

  lemma {:induction false} JoinThree(a: string, b: string, c: string, sep: string)
    ensures Join([a, b, c], sep) == a + sep + b + sep + c
  {
    assert [a, b, c][1..] == [b, c];
    assert [b, c][1..] == [c];
  }

  lemma {:induction false} TitleWordsHelloWorld2023()
    ensures TitleWords(["hello", "world", "2023"], Acronyms) == ["Hello", "World", "2023"]
  {
    var tw := TitleWords(["hello", "world", "2023"], Acronyms);
    CapitalWord("hello", 'H');
    CapitalWord("world", 'W');
    NotAcronymLead("2023");
    assert tw[0] == "Hello" && tw[1] == "World" && tw[2] == "2023";
  }

  /** `"hello-world-2023"` is titled `"Hello World 2023"`. */
  lemma {:induction false} TitleHelloWorld2023()
    ensures SlugToTitle("hello" + "-" + "world" + "-" + "2023", Acronyms) == "Hello" + " " + "World" + " " + "2023"
  {
    var ws := ["hello", "world", "2023"];
    JoinThree("hello", "world", "2023", "-");
    TitleOfWords(ws, Acronyms);
    TitleWordsHelloWorld2023();
    JoinThree("Hello", "World", "2023", " ");
  }

  /** A lower-case word equal to a built-in acronym is upper-cased whole. */
  lemma {:induction false} AcronymWord(w: string, i: nat)
    requires i < |Acronyms| && w == Acronyms[i]
    ensures TitleWord(w, Acronyms) == ToUpper(w)
  {
    assert ToLower(w) == w;
    assert EqualFold(ToLower(w), Acronyms[i]);
  }

  /** A word that does not start with a letter is no built-in acronym, and its first byte
      has no upper case. */
  lemma {:induction false} NotAcronymLead(w: string)
    requires |w| > 0 && !IsLetter(w[0])
    ensures TitleWord(w, Acronyms) == w
  {
    forall i | 0 <= i < |Acronyms|
      ensures !EqualFold(ToLower(w), Acronyms[i])
    {
      assert |Acronyms[i]| > 0 && IsLower(Acronyms[i][0]);
      assert ToLower(ToLower(w))[0] == w[0];
    }
    assert [ToUpperChar(w[0])] + w[1..] == w;
  }

  /** A word with no byte of the class passes through the collapse unchanged. */
  lemma {:induction false} CollapseWord(w: string, rest: string, p: char -> bool, rep: char)
    requires forall i :: 0 <= i < |w| ==> !p(w[i])
    ensures CollapseRuns(w + rest, p, rep) == w + CollapseRuns(rest, p, rep)
    decreases |w|
  {
    if |w| > 0 {
      var s := w + rest;
      assert s[1..] == w[1..] + rest;
      CollapseWord(w[1..], rest, p, rep);
      CollapseStep(s, p, rep);
      Regroup3([w[0]], w[1..], CollapseRuns(rest, p, rep));
      assert w == [w[0]] + w[1..];
    } else {
      assert w + rest == rest;
    }
  }

  /** A byte outside the class is kept and the rest collapsed after it. */
  lemma {:induction false} CollapseStep(s: string, p: char -> bool, rep: char)
    requires |s| > 0 && !p(s[0])
    ensures CollapseRuns(s, p, rep) == [s[0]] + CollapseRuns(s[1..], p, rep)
  {
  }

  /** A whole run of the class, followed by a byte outside it or by nothing, becomes one
      `rep`. */
  lemma {:induction false} CollapseRun(run: string, rest: string, p: char -> bool, rep: char)
    requires |run| > 0 && forall i :: 0 <= i < |run| ==> p(run[i])
    requires |rest| == 0 || !p(rest[0])
    ensures CollapseRuns(run + rest, p, rep) == [rep] + CollapseRuns(rest, p, rep)
  {
    TrimRun(run, rest, p);
  }

  lemma {:induction false} TrimRun(run: string, rest: string, p: char -> bool)
    requires forall i :: 0 <= i < |run| ==> p(run[i])
    requires |rest| == 0 || !p(rest[0])
    ensures TrimLeftFunc(run + rest, p) == rest
    decreases |run|
  {
    if |run| > 0 {
      TrimRun(run[1..], rest, p);
      assert (run + rest)[1..] == run[1..] + rest;
    } else {
      assert run + rest == rest;
      TrimLeftFuncFixed(rest, p);
    }
  }

  lemma {:induction false} BlankHelloWorld2023()
    ensures Blank(ToLower("Hello, World! @2023")) == "hello" + "  " + "world" + "   " + "2023"
  {
    var b := Blank(ToLower("Hello, World! @2023"));
    var e := "hello" + "  " + "world" + "   " + "2023";
    assert |b| == |e| == 19;
    forall i | 0 <= i < 19
      ensures b[i] == e[i]
    {
    }
  }

  /** Three words separated by two runs of the class collapse to the words separated by
      single `rep`s. */
  lemma {:induction false} CollapseThree(a: string, r1: string, b: string, r2: string, c: string, p: char -> bool, rep: char)
    requires forall i :: 0 <= i < |a| ==> !p(a[i])
    requires forall i :: 0 <= i < |b| ==> !p(b[i])
    requires forall i :: 0 <= i < |c| ==> !p(c[i])
    requires |b| > 0 && |c| > 0
    requires |r1| > 0 && forall i :: 0 <= i < |r1| ==> p(r1[i])
    requires |r2| > 0 && forall i :: 0 <= i < |r2| ==> p(r2[i])
    ensures CollapseRuns(a + r1 + b + r2 + c, p, rep) == a + [rep] + b + [rep] + c
  {
    assert CollapseRuns(c, p, rep) == c by {
      CollapseWord(c, "", p, rep);
      assert c + "" == c;
    }
    CollapsePiece(b, r2, c, p, rep, c);
    CollapsePiece(a, r1, b + (r2 + c), p, rep, b + ([rep] + c));
    Regroup(a, r1, b, r2, c);
    Regroup(a, [rep], b, [rep], c);
  }

  lemma {:induction false} Regroup3(a: string, b: string, c: string)
    ensures a + (b + c) == a + b + c
  {
  }

  lemma {:induction false} Regroup(a: string, x: string, b: string, y: string, c: string)
    ensures a + x + b + y + c == a + (x + (b + (y + c)))
  {
  }

  /** A word, a run of the class, and a rest that starts outside it: the word is kept and
      the run becomes one `rep`. */
  lemma {:induction false} CollapsePiece(w: string, run: string, rest: string, p: char -> bool, rep: char, out: string)
    requires forall i :: 0 <= i < |w| ==> !p(w[i])
    requires |run| > 0 && forall i :: 0 <= i < |run| ==> p(run[i])
    requires |rest| > 0 && !p(rest[0])
    requires CollapseRuns(rest, p, rep) == out
    ensures CollapseRuns(w + (run + rest), p, rep) == w + ([rep] + out)
  {
    CollapseRun(run, rest, p, rep);
    CollapseWord(w, run + rest, p, rep);
  }

  lemma {:induction false} SpacedHelloWorld2023()
    ensures SpacedWords("Hello, World! @2023") == Join(["hello", "world", "2023"], " ")
  {
    CollapsedHelloWorld2023();
    TrimmedHelloWorld2023();
  }

  lemma {:induction false} TrimmedHelloWorld2023()
    ensures TrimSpace(Join(["hello", "world", "2023"], " ")) == Join(["hello", "world", "2023"], " ")
  {
    JoinThree("hello", "world", "2023", " ");
    TrimSpaceFixed("hello" + " " + "world" + " " + "2023");
  }

  lemma {:induction false} CollapsedHelloWorld2023()
    ensures CollapseRuns(Blank(ToLower("Hello, World! @2023")), RegexSpace, ' ') == Join(["hello", "world", "2023"], " ")
  {
    BlankHelloWorld2023();
    CollapseThree("hello", "  ", "world", "   ", "2023", RegexSpace, ' ');
    JoinThree("hello", "world", "2023", " ");
  }

  /** `"Hello, World! @2023"` becomes `"hello-world-2023"`: punctuation is blanked and the
      blank runs become single hyphens. */
  lemma {:induction false} SlugHelloWorld2023()
    ensures TitleToSlug("Hello, World! @2023") == "hello" + "-" + "world" + "-" + "2023"
  {
    var ws := ["hello", "world", "2023"];
    SpacedHelloWorld2023();
    PlainHelloWorld2023();
    RewriteDotsPlain(ws);
    HyphenatePlain(ws);
  }

  lemma {:induction false} PlainHelloWorld2023()
    ensures forall k :: 0 <= k < 3 ==> PlainWord(["hello", "world", "2023"][k])
    ensures Join(["hello", "world", "2023"], "-") == "hello" + "-" + "world" + "-" + "2023"
  {
    var ws := ["hello", "world", "2023"];
    assert PlainWord(ws[0]) && PlainWord(ws[1]) && PlainWord(ws[2]);
    JoinThree("hello", "world", "2023", "-");
  }
}
