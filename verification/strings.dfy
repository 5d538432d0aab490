/**
 Models of the Go standard-library string functions the template engine relies on
 (`strings`, `strconv`). A Go string is a byte string; here every `char` stands for
 one byte and case mapping and white space follow ASCII.
 */
module Strings {
  import opened Wrappers

  // ---------------------------------------------------------------------------
  // Character classes
  // ---------------------------------------------------------------------------

  /** ASCII white space as `strings.TrimSpace` sees it: \t \n \v \f \r and space. */
  predicate IsSpace(c: char) {
    c == ' ' || c == '\t' || c == '\n' || c == '\U{000B}' || c == '\U{000C}' || c == '\r'
  }

  /** `unicode.IsSpace(rune(b))` for a single byte b: the ASCII spaces plus U+0085 and U+00A0. */
  predicate IsSpaceByte(c: char) {
    IsSpace(c) || c == '\U{0085}' || c == '\U{00A0}'
  }

  predicate IsDigit(c: char) { '0' <= c <= '9' }
  predicate IsLower(c: char) { 'a' <= c <= 'z' }
  predicate IsUpper(c: char) { 'A' <= c <= 'Z' }
  predicate IsLetter(c: char) { IsLower(c) || IsUpper(c) }

  function ToLowerChar(c: char): (r: char)
    ensures IsUpper(c) ==> IsLower(r)
    ensures !IsUpper(c) ==> r == c
  {
    if IsUpper(c) then (c as int + 32) as char else c
  }

  function ToUpperChar(c: char): (r: char)
    ensures IsLower(c) ==> IsUpper(r)
    ensures !IsLower(c) ==> r == c
  {
    if IsLower(c) then (c as int - 32) as char else c
  }

  /** `strings.ToLower` on ASCII text. */
  function ToLower(s: string): (r: string)
    ensures |r| == |s|
    ensures forall i :: 0 <= i < |s| ==> r[i] == ToLowerChar(s[i])
  {
    seq(|s|, i requires 0 <= i < |s| => ToLowerChar(s[i]))
  }

  /** `strings.ToUpper` on ASCII text. */
  function ToUpper(s: string): (r: string)
    ensures |r| == |s|
    ensures forall i :: 0 <= i < |s| ==> r[i] == ToUpperChar(s[i])
  {
    seq(|s|, i requires 0 <= i < |s| => ToUpperChar(s[i]))
  }

  /** `strings.EqualFold` on ASCII text. */
  predicate EqualFold(a: string, b: string) {
    ToLower(a) == ToLower(b)
  }

  // ---------------------------------------------------------------------------
  // Prefixes, suffixes, search
  // ---------------------------------------------------------------------------

  predicate HasPrefix(s: string, prefix: string) {
    |prefix| <= |s| && s[..|prefix|] == prefix
  }

  predicate HasSuffix(s: string, suffix: string) {
    |suffix| <= |s| && s[|s| - |suffix|..] == suffix
  }

  /** True when `sub` occurs in `s` starting at index i. */
  predicate OccursAt(s: string, sub: string, i: int) {
    0 <= i && i + |sub| <= |s| && s[i..i + |sub|] == sub
  }

  /** `strings.Index`, searching from `from`: the first occurrence of `sub` at or after `from`. */
  function IndexFrom(s: string, sub: string, from: nat): (r: Option<nat>)
    requires from <= |s|
    ensures r.Some? ==> from <= r.value && OccursAt(s, sub, r.value)
    ensures r.Some? ==> forall j :: from <= j < r.value ==> !OccursAt(s, sub, j)
    ensures r.None? ==> forall j :: from <= j <= |s| ==> !OccursAt(s, sub, j)
    decreases |s| - from
  {
    if OccursAt(s, sub, from) then Some(from)
    else if from == |s| then None
    else IndexFrom(s, sub, from + 1)
  }

  function Index(s: string, sub: string): (r: Option<nat>)
    ensures r.Some? ==> OccursAt(s, sub, r.value)
    ensures r.Some? ==> forall j :: 0 <= j < r.value ==> !OccursAt(s, sub, j)
    ensures r.None? ==> forall j :: 0 <= j <= |s| ==> !OccursAt(s, sub, j)
  {
    IndexFrom(s, sub, 0)
  }

  predicate Contains(s: string, sub: string) {
    Index(s, sub).Some?
  }

  /** `strings.ContainsRune` for a single byte. */
  predicate ContainsChar(s: string, c: char) {
    c in s
  }

  /** `strings.TrimPrefix`: removes `prefix` once when `s` starts with it. */
  function TrimPrefix(s: string, prefix: string): (r: string)
    ensures HasPrefix(s, prefix) ==> s == prefix + r
    ensures !HasPrefix(s, prefix) ==> r == s
  {
    if HasPrefix(s, prefix) then s[|prefix|..] else s
  }

  /** `strings.TrimSuffix`: removes `suffix` once when `s` ends with it. */
  function TrimSuffix(s: string, suffix: string): (r: string)
    ensures HasSuffix(s, suffix) ==> s == r + suffix
    ensures !HasSuffix(s, suffix) ==> r == s
  {
    if HasSuffix(s, suffix) then s[..|s| - |suffix|] else s
  }

  /** `r` is the contiguous piece of `s` that starts at index i. */
  predicate SliceAt(s: string, i: int, r: string) {
    0 <= i && i + |r| <= |s| && s[i..i + |r|] == r
  }

  /** `r` is a contiguous piece of `s`. */
  ghost predicate IsInfix(r: string, s: string) {
    exists i :: SliceAt(s, i, r)
  }

  // ---------------------------------------------------------------------------
  // Trimming by a character class
  // ---------------------------------------------------------------------------

  /** `strings.TrimLeftFunc`: drops the longest prefix of characters satisfying `f`. */
  function TrimLeftFunc(s: string, f: char -> bool): (r: string)
    ensures |r| <= |s| && r == s[|s| - |r|..]
    ensures forall i :: 0 <= i < |s| - |r| ==> f(s[i])
    ensures |r| > 0 ==> !f(r[0])
    decreases |s|
  {
    if |s| > 0 && f(s[0]) then TrimLeftFunc(s[1..], f) else s
  }

  /** `strings.TrimRightFunc`: drops the longest suffix of characters satisfying `f`. */
  function TrimRightFunc(s: string, f: char -> bool): (r: string)
    ensures |r| <= |s| && r == s[..|r|]
    ensures forall i :: |r| <= i < |s| ==> f(s[i])
    ensures |r| > 0 ==> !f(r[|r| - 1])
    decreases |s|
  {
    if |s| > 0 && f(s[|s| - 1]) then TrimRightFunc(s[..|s| - 1], f) else s
  }

  /** `r` is `s` with a prefix and a suffix cut off, and every byte cut off satisfies `f`. */
  ghost predicate StrippedBy(s: string, r: string, f: char -> bool) {
    exists i :: SliceAt(s, i, r) && (forall k :: 0 <= k < i ==> f(s[k])) && (forall k :: i + |r| <= k < |s| ==> f(s[k]))
  }

  /** `strings.TrimFunc`: both ends. The result is `s` without its longest prefix and
      longest suffix of bytes satisfying `f`. */
  function TrimFunc(s: string, f: char -> bool): (r: string)
    ensures IsInfix(r, s)
    ensures StrippedBy(s, r, f)
    ensures |r| > 0 ==> !f(r[0]) && !f(r[|r| - 1])
  {
    var left := TrimLeftFunc(s, f);
    var r := TrimRightFunc(left, f);
    StripBothEnds(s, left, r, f);
    r
  }

  /** Stripping a prefix and then a suffix of bytes satisfying `f` strips both ends. */
  lemma {:induction false} StripBothEnds(s: string, left: string, r: string, f: char -> bool)
    requires |left| <= |s| && left == s[|s| - |left|..] && forall k :: 0 <= k < |s| - |left| ==> f(s[k])
    requires |r| <= |left| && r == left[..|r|] && forall k :: |r| <= k < |left| ==> f(left[k])
    ensures SliceAt(s, |s| - |left|, r) && IsInfix(r, s) && StrippedBy(s, r, f)
  {
    var i := |s| - |left|;
    assert SliceAt(s, i, r);
    forall k | i + |r| <= k < |s| ensures f(s[k]) {
      assert s[k] == left[k - i];
    }
  }

  /** `strings.TrimSpace`: the white space at both ends is removed, and nothing else. */
  function TrimSpace(s: string): (r: string)
    ensures IsInfix(r, s)
    ensures StrippedBy(s, r, IsSpace)
    ensures |r| > 0 ==> !IsSpace(r[0]) && !IsSpace(r[|r| - 1])
  {
    TrimFunc(s, IsSpace)
  }

  /** `r` is what trimming the white space off `s` must give: only white space is cut
      off, and `r` neither starts nor ends with any. */
  ghost predicate SpaceTrimmed(s: string, r: string) {
    StrippedBy(s, r, IsSpace) && (|r| > 0 ==> !IsSpace(r[0]) && !IsSpace(r[|r| - 1]))
  }

  /** A trim by a class is determined by its two conditions: at most one text cuts off only
      bytes of the class and has none at either end. */
  lemma {:induction false} StrippedUnique(s: string, r1: string, r2: string, f: char -> bool)
    requires StrippedBy(s, r1, f) && (|r1| > 0 ==> !f(r1[0]) && !f(r1[|r1| - 1]))
    requires StrippedBy(s, r2, f) && (|r2| > 0 ==> !f(r2[0]) && !f(r2[|r2| - 1]))
    ensures r1 == r2
  {
    var i1 :| SliceAt(s, i1, r1) && (forall k :: 0 <= k < i1 ==> f(s[k])) && (forall k :: i1 + |r1| <= k < |s| ==> f(s[k]));
    var i2 :| SliceAt(s, i2, r2) && (forall k :: 0 <= k < i2 ==> f(s[k])) && (forall k :: i2 + |r2| <= k < |s| ==> f(s[k]));
    if |r1| > 0 && |r2| > 0 {
      assert s[i1] == r1[0] && s[i2] == r2[0];
      assert s[i1 + |r1| - 1] == r1[|r1| - 1] && s[i2 + |r2| - 1] == r2[|r2| - 1];
      assert i1 == i2;
      assert i1 + |r1| == i2 + |r2|;
    } else if |r1| > 0 {
      NotAllStripped(s, i1, r1, i2, f);
    } else if |r2| > 0 {
      NotAllStripped(s, i2, r2, i1, f);
    }
  }

  /** A non-empty stripped text starts with a byte outside the class, so the class does
      not cover the whole of `s`. */
  lemma {:induction false} NotAllStripped(s: string, i: int, r: string, j: int, f: char -> bool)
    requires |r| > 0 && SliceAt(s, i, r) && !f(r[0])
    ensures !(0 <= j <= |s| && (forall k :: 0 <= k < j ==> f(s[k])) && (forall k :: j <= k < |s| ==> f(s[k])))
  {
    assert s[i] == r[0];
  }

  /** `TrimSpace` is the one text that `SpaceTrimmed` admits. */
  lemma {:induction false} TrimSpaceIsSpaceTrimmed(s: string, r: string)
    ensures SpaceTrimmed(s, r) <==> r == TrimSpace(s)
  {
    if SpaceTrimmed(s, r) {
      StrippedUnique(s, r, TrimSpace(s), IsSpace);
    }
  }

  /** `strings.Trim(s, cutset)`: both ends, removing any byte of `cutset` and no other. */
  function Trim(s: string, cutset: string): (r: string)
    ensures IsInfix(r, s)
    ensures exists i :: SliceAt(s, i, r) && (forall k :: 0 <= k < i ==> s[k] in cutset) && (forall k :: i + |r| <= k < |s| ==> s[k] in cutset)
    ensures |r| > 0 ==> r[0] !in cutset && r[|r| - 1] !in cutset
  {
    var left := TrimLeft(s, cutset);
    var r := TrimRight(left, cutset);
    CutsetBothEnds(s, left, r, cutset);
    r
  }

  /** Cutting a prefix and then a suffix of cutset bytes cuts both ends. */
  lemma {:induction false} CutsetBothEnds(s: string, left: string, r: string, cutset: string)
    requires |left| <= |s| && left == s[|s| - |left|..] && forall k :: 0 <= k < |s| - |left| ==> s[k] in cutset
    requires |left| > 0 ==> left[0] !in cutset
    requires |r| <= |left| && r == left[..|r|] && forall k :: |r| <= k < |left| ==> left[k] in cutset
    requires |r| > 0 ==> r[|r| - 1] !in cutset
    ensures IsInfix(r, s)
    ensures exists i :: SliceAt(s, i, r) && (forall k :: 0 <= k < i ==> s[k] in cutset) && (forall k :: i + |r| <= k < |s| ==> s[k] in cutset)
    ensures |r| > 0 ==> r[0] !in cutset && r[|r| - 1] !in cutset
  {
    var i := |s| - |left|;
    assert SliceAt(s, i, r);
    forall k | i + |r| <= k < |s| ensures s[k] in cutset {
      assert s[k] == left[k - i];
    }
    if |r| > 0 {
      assert r[0] == left[0];
    }
  }

  /** `strings.TrimLeft(s, cutset)`. */
  function TrimLeft(s: string, cutset: string): (r: string)
    ensures |r| <= |s| && r == s[|s| - |r|..]
    ensures forall i :: 0 <= i < |s| - |r| ==> s[i] in cutset
    ensures |r| > 0 ==> r[0] !in cutset
  {
    TrimLeftFunc(s, c => c in cutset)
  }

  /** `strings.TrimRight(s, cutset)`. */
  function TrimRight(s: string, cutset: string): (r: string)
    ensures |r| <= |s| && r == s[..|r|]
    ensures forall i :: |r| <= i < |s| ==> s[i] in cutset
    ensures |r| > 0 ==> r[|r| - 1] !in cutset
  {
    TrimRightFunc(s, c => c in cutset)
  }

  lemma {:induction false} TrimLeftFuncFixed(s: string, f: char -> bool)
    requires |s| == 0 || !f(s[0])
    ensures TrimLeftFunc(s, f) == s
  {
  }

  lemma {:induction false} TrimRightFuncFixed(s: string, f: char -> bool)
    requires |s| == 0 || !f(s[|s| - 1])
    ensures TrimRightFunc(s, f) == s
  {
  }

  /** Trimming by a class twice is the same as trimming once. */
  lemma {:induction false} TrimFuncIdempotent(s: string, f: char -> bool)
    ensures TrimFunc(TrimFunc(s, f), f) == TrimFunc(s, f)
  {
    var r := TrimFunc(s, f);
    TrimLeftFuncFixed(r, f);
    TrimRightFuncFixed(r, f);
  }

  lemma {:induction false} TrimSpaceIdempotent(s: string)
    ensures TrimSpace(TrimSpace(s)) == TrimSpace(s)
  {
    TrimFuncIdempotent(s, IsSpace);
  }

  lemma {:induction false} TrimSpaceFixed(s: string)
    requires |s| == 0 || (!IsSpace(s[0]) && !IsSpace(s[|s| - 1]))
    ensures TrimSpace(s) == s
  {
    TrimLeftFuncFixed(s, IsSpace);
    TrimRightFuncFixed(s, IsSpace);
  }

  /** One space on each side of a trimmed text is removed again. */
  lemma {:induction false} TrimSpaceOfPadded(inner: string)
    requires |inner| > 0 && !IsSpace(inner[0]) && !IsSpace(inner[|inner| - 1])
    ensures TrimSpace(" " + inner + " ") == inner
  {
    var s := " " + inner + " ";
    var left := inner + " ";
    assert s[1..] == left;
    TrimLeftFuncFixed(left, IsSpace);
    assert TrimLeftFunc(s, IsSpace) == left;
    assert left[..|left| - 1] == inner;
    TrimRightFuncFixed(inner, IsSpace);
    assert TrimRightFunc(left, IsSpace) == inner;
  }

  /** A string without any space character is its own TrimSpace. */
  lemma {:induction false} TrimSpaceNoSpace(s: string)
    requires forall i :: 0 <= i < |s| ==> !IsSpace(s[i])
    ensures TrimSpace(s) == s
  {
    TrimSpaceFixed(s);
  }

  // ---------------------------------------------------------------------------
  // Split, Join, Count, ReplaceAll
  // ---------------------------------------------------------------------------

  /** `strings.Join`. */
  function Join(parts: seq<string>, sep: string): (r: string)
    ensures |parts| == 0 ==> r == ""
    ensures |parts| == 1 ==> r == parts[0]
  {
    if |parts| == 0 then ""
    else if |parts| == 1 then parts[0]
    else parts[0] + sep + Join(parts[1..], sep)
  }

  /** `strings.Split` with a non-empty separator: the pieces between non-overlapping
      left-to-right occurrences of `sep`. */
  function SplitNonEmpty(s: string, sep: string): (r: seq<string>)
    requires |sep| > 0
    ensures |r| >= 1
    decreases |s|
  {
    match Index(s, sep)
    case None => [s]
    case Some(i) => [s[..i]] + SplitNonEmpty(s[i + |sep|..], sep)
  }

  /** `strings.Split`: with an empty separator every byte becomes its own piece. */
  function Split(s: string, sep: string): (r: seq<string>)
  {
    if |sep| == 0 then seq(|s|, i requires 0 <= i < |s| => [s[i]])
    else SplitNonEmpty(s, sep)
  }

  /** `strings.Count` with a non-empty separator: non-overlapping occurrences. */
  function Count(s: string, sep: string): (r: nat)
    requires |sep| > 0
    decreases |s|
  {
    match Index(s, sep)
    case None => 0
    case Some(i) => 1 + Count(s[i + |sep|..], sep)
  }

  /** Splitting loses nothing: joining the pieces with the separator restores the input. */
  lemma {:induction false} SplitJoin(s: string, sep: string)
    requires |sep| > 0
    ensures Join(Split(s, sep), sep) == s
    decreases |s|
  {
    match Index(s, sep)
    case None =>
    case Some(i) =>
      var rest := s[i + |sep|..];
      SplitJoin(rest, sep);
      JoinCons(s[..i], Split(rest, sep), sep);
      SplitsAt(s, sep, i);
  }

  /** An occurrence of `sep` at `i` cuts `s` into the part before, `sep`, and the rest. */
  lemma {:induction false} SplitsAt(s: string, sep: string, i: nat)
    requires OccursAt(s, sep, i)
    ensures s == s[..i] + sep + s[i + |sep|..]
  {
    assert s[i..i + |sep|] == sep;
    assert s == s[..i] + s[i..i + |sep|] + s[i + |sep|..];
  }

  /** Joining a piece in front of a non-empty list. */
  lemma {:induction false} JoinCons(head: string, tail: seq<string>, sep: string)
    requires |tail| >= 1
    ensures Join([head] + tail, sep) == head + sep + Join(tail, sep)
  {
    assert ([head] + tail)[1..] == tail;
  }

  /** There is one more piece than there are separator occurrences. */
  lemma {:induction false} SplitCount(s: string, sep: string)
    requires |sep| > 0
    ensures |Split(s, sep)| == Count(s, sep) + 1
    decreases |s|
  {
    match Index(s, sep)
    case None =>
    case Some(i) => SplitCount(s[i + |sep|..], sep);
  }

  /** No piece contains the separator. */
  lemma {:induction false} SplitPiecesFree(s: string, sep: string)
    requires |sep| > 0
    ensures forall k :: 0 <= k < |Split(s, sep)| ==> !Contains(Split(s, sep)[k], sep)
    decreases |s|
  {
    match Index(s, sep)
    case None =>
    case Some(i) =>
      var rest := s[i + |sep|..];
      SplitPiecesFree(rest, sep);
      var head := s[..i];
      forall j | 0 <= j <= |head|
        ensures !OccursAt(head, sep, j)
      {
        if OccursAt(head, sep, j) {
          assert s[j..j + |sep|] == head[j..j + |sep|];
          assert OccursAt(s, sep, j);
        }
      }
      var r := Split(s, sep);
      assert r == [head] + Split(rest, sep);
      forall k | 0 <= k < |r|
        ensures !Contains(r[k], sep)
      {
        if k > 0 { assert r[k] == Split(rest, sep)[k - 1]; }
      }
  }

  /** A string without the separator byte is a single piece. */
  lemma {:induction false} SplitNoSep(s: string, c: char)
    requires c !in s
    ensures Split(s, [c]) == [s]
  {
    assert Index(s, [c]).None? by {
      forall j | 0 <= j < |s| ensures !OccursAt(s, [c], j) {
        assert s[j..j + 1][0] == s[j];
      }
    }
  }

  /** Splitting `head + c + rest` where `head` has no `c`: `head` is the first piece and
      the rest are the pieces of `rest`. */
  lemma {:induction false} SplitFirst(head: string, c: char, rest: string)
    requires c !in head
    ensures Split(head + [c] + rest, [c]) == [head] + Split(rest, [c])
  {
    var s := head + [c] + rest;
    assert OccursAt(s, [c], |head|) by { assert s[|head|..|head| + 1] == [c]; }
    forall j | 0 <= j < |head| ensures !OccursAt(s, [c], j) {
      assert s[j..j + 1][0] == s[j] == head[j];
    }
    assert Index(s, [c]) == Some(|head|);
    assert s[..|head|] == head;
    assert s[|head| + 1..] == rest;
  }

  /** Joining pieces free of the separator byte and splitting again gives the pieces back. */
  lemma {:induction false} JoinSplit(parts: seq<string>, c: char)
    requires |parts| >= 1
    requires forall k :: 0 <= k < |parts| ==> c !in parts[k]
    ensures Split(Join(parts, [c]), [c]) == parts
    decreases |parts|
  {
    if |parts| == 1 {
      SplitNoSep(parts[0], c);
    } else {
      var rest := parts[1..];
      JoinSplit(rest, c);
      assert Join(parts, [c]) == parts[0] + [c] + Join(rest, [c]);
      SplitFirst(parts[0], c, Join(rest, [c]));
      assert parts == [parts[0]] + rest;
    }
  }

  lemma {:induction false} TrimSpaceOfRightPadded(inner: string)
    requires |inner| > 0 && !IsSpace(inner[0]) && !IsSpace(inner[|inner| - 1])
    ensures TrimSpace(inner + " ") == inner
  {
    var s := inner + " ";
    TrimLeftFuncFixed(s, IsSpace);
    assert s[..|s| - 1] == inner;
    TrimRightFuncFixed(inner, IsSpace);
  }

  lemma {:induction false} TrimSpaceOfLeftPadded(inner: string)
    requires |inner| > 0 && !IsSpace(inner[0]) && !IsSpace(inner[|inner| - 1])
    ensures TrimSpace(" " + inner) == inner
  {
    var s := " " + inner;
    assert s[1..] == inner;
    TrimLeftFuncFixed(inner, IsSpace);
    TrimRightFuncFixed(inner, IsSpace);
  }

  /** A piece without the separator as a substring does not hold the separator byte. */
  lemma {:induction false} NoContainsChar(p: string, c: char)
    requires !Contains(p, [c])
    ensures c !in p
  {
    forall j | 0 <= j < |p|
      ensures p[j] != c
    {
      assert p[j..j + 1][0] == p[j];
      assert !OccursAt(p, [c], j);
    }
  }

  /** A byte the text does not hold is never found. */
  lemma {:induction false} IndexAbsentChar(p: string, c: char)
    requires c !in p
    ensures Index(p, [c]) == None
  {
    forall j | 0 <= j <= |p| ensures !OccursAt(p, [c], j) {
      if j < |p| {
        assert p[j..j + 1][0] == p[j];
      }
    }
  }

  /** The first occurrence of a byte is where it first appears. */
  lemma {:induction false} IndexFirstChar(p: string, c: char, i: nat)
    requires i < |p| && p[i] == c && c !in p[..i]
    ensures Index(p, [c]) == Some(i)
  {
    assert OccursAt(p, [c], i) by { assert p[i..i + 1] == [c]; }
    forall j | 0 <= j < i ensures !OccursAt(p, [c], j) {
      assert p[j..j + 1][0] == p[j] == p[..i][j];
    }
  }

  /** Join with the empty separator distributes over concatenation of the parts. */
  lemma {:induction false} JoinEmptyAppend(a: seq<string>, b: seq<string>)
    ensures Join(a + b, "") == Join(a, "") + Join(b, "")
    decreases |a|
  {
    if |a| == 0 {
      assert a + b == b;
    } else if |a| == 1 {
      if |b| > 0 {
        assert a + b == [a[0]] + b;
        assert (a + b)[1..] == b;
      }
    } else {
      JoinEmptyAppend(a[1..], b);
      assert (a + b)[1..] == a[1..] + b;
    }
  }

  /** `strings.ReplaceAll(s, pat, repl)` for a non-empty `pat`, scanning left to right: an
      occurrence of `pat` is replaced and skipped, any other byte is kept. Go's loop, which
      jumps from one `strings.Index` match to the next, is ReplaceAllAt and ReplaceAllAbsent. */
  function ReplaceAll(s: string, pat: string, repl: string): (r: string)
    requires |pat| > 0
    decreases |s|
  {
    if |s| == 0 then s
    else if HasPrefix(s, pat) then repl + ReplaceAll(s[|pat|..], pat, repl)
    else [s[0]] + ReplaceAll(s[1..], pat, repl)
  }

  /** Bytes before the first place the pattern could start are copied unchanged. */
  lemma {:induction false} ReplaceAllCopies(s: string, pat: string, repl: string, i: nat)
    requires |pat| > 0 && i <= |s|
    requires forall k :: 0 <= k < i ==> !OccursAt(s, pat, k)
    ensures ReplaceAll(s, pat, repl) == s[..i] + ReplaceAll(s[i..], pat, repl)
    decreases i
  {
    if i == 0 {
      assert s[..0] == "" && s[0..] == s;
    } else {
      var t := s[1..];
      assert [s[0]] + t == s;
      assert !HasPrefix(s, pat) by {
        assert !OccursAt(s, pat, 0);
        if |pat| <= |s| {
          assert s[0..|pat|] == s[..|pat|];
        }
      }
      forall k | 0 <= k < i - 1 ensures !OccursAt(t, pat, k) {
        OccursShift(s[0], t, pat, k + 1);
      }
      ReplaceAllCopies(t, pat, repl, i - 1);
      assert t[i - 1..] == s[i..];
      assert [s[0]] + t[..i - 1] == s[..i];
    }
  }

  /** Replacing a pattern that does not occur changes nothing. */
  lemma {:induction false} ReplaceAllAbsent(s: string, pat: string, repl: string)
    requires |pat| > 0
    requires Index(s, pat).None?
    ensures ReplaceAll(s, pat, repl) == s
  {
    ReplaceAllCopies(s, pat, repl, |s|);
    assert s[..|s|] == s;
  }

  /** Where the first occurrence is, the replacement splits the text there: the step of
      Go's loop that copies up to the match and writes the replacement. */
  lemma {:induction false} ReplaceAllAt(s: string, pat: string, repl: string, i: nat)
    requires |pat| > 0 && Index(s, pat) == Some(i)
    ensures ReplaceAll(s, pat, repl) == s[..i] + repl + ReplaceAll(s[i + |pat|..], pat, repl)
  {
    ReplaceAllCopies(s, pat, repl, i);
    var t := s[i..];
    assert HasPrefix(t, pat) by {
      assert OccursAt(s, pat, i);
      assert t[..|pat|] == s[i..i + |pat|];
    }
    assert t[|pat|..] == s[i + |pat|..];
  }

  /** A text that starts with the pattern has its first replacement at the front. */
  lemma {:induction false} ReplaceAllHead(w: string, pat: string, repl: string)
    requires |pat| > 0
    ensures ReplaceAll(pat + w, pat, repl) == repl + ReplaceAll(w, pat, repl)
  {
    var s := pat + w;
    assert s[..|pat|] == pat;
    assert s[|pat|..] == w;
  }

  /** A character put in front of a text shifts every occurrence of a pattern by one. */
  lemma {:induction false} OccursShift(c: char, w: string, pat: string, m: int)
    requires 1 <= m
    ensures OccursAt([c] + w, pat, m) <==> OccursAt(w, pat, m - 1)
  {
    var s := [c] + w;
    if m + |pat| <= |s| {
      assert s[m..m + |pat|] == w[m - 1..m - 1 + |pat|];
    }
  }

  /** A character in front of the text, where the pattern does not start, is kept in
      front of the replaced text. */
  lemma {:induction false} ReplaceAllCons(c: char, w: string, pat: string, repl: string)
    requires |pat| > 0 && !OccursAt([c] + w, pat, 0)
    ensures ReplaceAll([c] + w, pat, repl) == [c] + ReplaceAll(w, pat, repl)
  {
    var s := [c] + w;
    assert s[1..] == w && s[0] == c;
    if |pat| <= |s| {
      assert s[0..|pat|] == s[..|pat|];
    }
  }

  /** Every byte `a` replaced by `b`, the others kept. */
  function MapChar(s: string, a: char, b: char): (r: string)
    ensures |r| == |s|
    ensures forall i :: 0 <= i < |s| ==> r[i] == (if s[i] == a then b else s[i])
  {
    seq(|s|, i requires 0 <= i < |s| => if s[i] == a then b else s[i])
  }

  /** `strings.ReplaceAll` of one byte by one byte replaces every occurrence in place. */
  lemma {:induction false} ReplaceAllChar(s: string, a: char, b: char)
    ensures ReplaceAll(s, [a], [b]) == MapChar(s, a, b)
    decreases |s|
  {
    if |s| > 0 {
      ReplaceAllChar(s[1..], a, b);
      assert HasPrefix(s, [a]) <==> s[0] == a by {
        assert s[..1] == [s[0]];
      }
      var m := MapChar(s, a, b);
      assert m == [m[0]] + MapChar(s[1..], a, b);
    }
  }

  /** Go's `string(r)` for a rune r: its UTF-8 encoding, one char per byte. A byte
      converted this way is re-encoded when it is 0x80 or above. */
  function EncodeRune(c: char): (r: string)
    ensures 1 <= |r| <= 4
    ensures c as int < 0x80 <==> r == [c]
  {
    var n := c as int;
    if n < 0x80 then [c]
    else if n < 0x800 then [(0xC0 + n / 64) as char, (0x80 + n % 64) as char]
    else if n < 0x10000 then [(0xE0 + n / 4096) as char, (0x80 + (n / 64) % 64) as char, (0x80 + n % 64) as char]
    else [(0xF0 + n / 262144) as char, (0x80 + (n / 4096) % 64) as char, (0x80 + (n / 64) % 64) as char, (0x80 + n % 64) as char]
  }

  // ---------------------------------------------------------------------------
  // Decimal integers: strconv.Itoa / fmt "%d" and strconv.Atoi
  // ---------------------------------------------------------------------------

  const MinInt64: int := -0x8000_0000_0000_0000
  const MaxInt64: int := 0x7FFF_FFFF_FFFF_FFFF

  predicate InInt64(n: int) { MinInt64 <= n <= MaxInt64 }

  function DigitChar(d: nat): (c: char)
    requires d < 10
    ensures IsDigit(c)
  {
    ('0' as int + d) as char
  }

  function DigitValue(c: char): (d: nat)
    requires IsDigit(c)
    ensures d < 10
  {
    c as int - '0' as int
  }

  /** The decimal digits of a natural number, without leading zeros. */
  function Digits(n: nat): (r: string)
    ensures |r| > 0
    ensures forall i :: 0 <= i < |r| ==> IsDigit(r[i])
  {
    if n < 10 then [DigitChar(n)] else Digits(n / 10) + [DigitChar(n % 10)]
  }

  /** The value of a string of decimal digits. */
  function DigitsValue(s: string): nat
    requires forall i :: 0 <= i < |s| ==> IsDigit(s[i])
  {
    if |s| == 0 then 0 else DigitsValue(s[..|s| - 1]) * 10 + DigitValue(s[|s| - 1])
  }

  /** `strconv.Itoa(n)`, which is also `fmt.Sprintf("%d", n)`. */
  function Itoa(n: int): (r: string)
    ensures |r| > 0
  {
    if n < 0 then "-" + Digits(-n) else Digits(n)
  }

  predicate AllDigits(s: string) {
    forall i :: 0 <= i < |s| ==> IsDigit(s[i])
  }

  /** `strconv.Atoi`: an optional sign, at least one decimal digit, and a value that fits a
      64-bit Go int; anything else is an error (None). */
  function Atoi(s: string): (r: Option<int>)
    ensures r.Some? ==> InInt64(r.value)
  {
    var neg := |s| > 0 && s[0] == '-';
    var body := if |s| > 0 && (s[0] == '-' || s[0] == '+') then s[1..] else s;
    if |body| == 0 || !AllDigits(body) then None
    else
      var mag: int := DigitsValue(body);
      var v := if neg then 0 - mag else mag;
      if InInt64(v) then Some(v) else None
  }

  lemma {:induction false} DigitsRoundTrip(n: nat)
    ensures DigitsValue(Digits(n)) == n
  {
    if n >= 10 {
      DigitsRoundTrip(n / 10);
      var d := Digits(n / 10) + [DigitChar(n % 10)];
      assert d[..|d| - 1] == Digits(n / 10);
    }
  }

  /** Printing an int and parsing it back gives the same int. */
  lemma {:induction false} ItoaAtoi(n: int)
    requires InInt64(n)
    ensures Atoi(Itoa(n)) == Some(n)
  {
    var s := Itoa(n);
    if n < 0 {
      DigitsRoundTrip(-n);
      assert s[0] == '-';
      assert s[1..] == Digits(-n);
    } else {
      DigitsRoundTrip(n);
      assert IsDigit(s[0]);
    }
  }

  /** `ItoaAtoi` for any int, guarded by the range condition. */
  lemma {:induction false} ItoaReadsBack(n: int)
    ensures InInt64(n) ==> Atoi(Itoa(n)) == Some(n)
  {
    if InInt64(n) { ItoaAtoi(n); }
  }
}
