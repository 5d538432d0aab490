/**
 The translation of PHP `date()` format codes into a Go time layout (package date).
 Each format byte is looked up, as a one-character string, in the code table; a code
 with a layout becomes that layout and any other byte is kept as it is.
 */
module Date {
  import opened Wrappers
  import opened Strings

  /** The wrapped `time.Time`, as nanoseconds since the Unix epoch. The translation never
      reads it. */
  datatype Date = Date(unixNanos: int)

  /** `DefaultFormat`. */
  const DefaultFormat: string := "Y-m-d H:i:s"

  /** The code table: the Go layout of a PHP format code; `""` marks a code with no direct
      Go counterpart, and a character that is not a code has no entry. Every key of the
      table is a single character. */
  function Code(c: char): (r: Option<string>)
  {
    match c
    case 'd' => Some("02")
    case 'D' => Some("Mon")
    case 'j' => Some("2")
    case 'l' => Some("Monday")
    case 'N' => Some("")
    case 'S' => Some("")
    case 'w' => Some("")
    case 'z' => Some("")
    case 'W' => Some("02")
    case 'F' => Some("January")
    case 'm' => Some("01")
    case 'M' => Some("Jan")
    case 'n' => Some("1")
    case 't' => Some("")
    case 'L' => Some("")
    case 'o' => Some("2006")
    case 'X' => Some("")
    case 'x' => Some("")
    case 'Y' => Some("2006")
    case 'y' => Some("06")
    case 'a' => Some("pm")
    case 'A' => Some("PM")
    case 'B' => Some("")
    case 'g' => Some("3")
    case 'G' => Some("15")
    case 'h' => Some("03")
    case 'H' => Some("15")
    case 'i' => Some("04")
    case 's' => Some("05")
    case 'u' => Some("000000")
    case 'v' => Some("000")
    case 'e' => Some("MST")
    case 'I' => Some("")
    case 'O' => Some("-0700")
    case 'P' => Some("-07:00")
    case 'p' => Some("")
    case 'T' => Some("MST")
    case 'Z' => Some("")
    case 'c' => Some("2006-01-02T15:04:05-07:00")
    case 'r' => Some("Mon, 02 Jan 2006 15:04:05 -0700")
    case 'U' => Some("")
    case _ => None
  }

  /** A lookup in the table by string key: only one-character keys can be present. */
  function Lookup(key: string): (r: Option<string>)
    ensures r.Some? ==> |key| == 1
  {
    if |key| == 1 then Code(key[0]) else None
  }

  /** The codes that have no direct layout. */
  const Unmapped: string := "NSwztLXxBIpZU"

  /** The unmapped codes are exactly the entries with an empty layout. */
  lemma {:induction false} UnmappedCodes(c: char)
    ensures Code(c) == Some("") <==> c in Unmapped
  {
  }

  /** The codes the default format uses. */
  lemma {:induction false} KnownCodes()
    ensures Code('d') == Some("02") && Code('m') == Some("01") && Code('Y') == Some("2006")
    ensures Code('H') == Some("15") && Code('i') == Some("04") && Code('s') == Some("05")
  {
  }

  /** The codes of the ISO 8601 date-time and of the date-time of section 3.3 of RFC 2822. */
  lemma {:induction false} CompositeCodes()
    ensures Code('c') == Some("2006-01-02T15:04:05-07:00")
    ensures Code('r') == Some("Mon, 02 Jan 2006 15:04:05 -0700")
  {
  }

  /** The layout for one format byte: the table's layout when it has a non-empty one,
      otherwise the byte itself. */
  function LayoutOf(c: char): (r: string)
    ensures Code(c).Some? && Code(c).value != "" ==> r == Code(c).value
    ensures !(Code(c).Some? && Code(c).value != "") ==> r == [c]
    ensures |r| >= 1
  {
    match Lookup([c])
    case Some(layout) => if layout != "" then layout else [c]
    case None => [c]
  }

  /** The layouts of the format's bytes, in order, for a layout of one byte. */
  function Translate(format: string, layout: char -> string): (r: string)
    decreases |format|
  {
    if |format| == 0 then "" else layout(format[0]) + Translate(format[1..], layout)
  }

  /** `Date.Format`: the translated layout. The error result is always nil, whatever the
      format, and the wrapped time is never read. */
  function Format(d: Date, format: string): (r: Result<string, string>)
    ensures r.Ok?
    ensures |format| == 0 ==> r.value == ""
    ensures |format| == 1 ==> r.value == LayoutOf(format[0])
  {
    var layout := Translate(format, LayoutOf);
    assert |format| == 1 ==> layout == LayoutOf(format[0]) + Translate(format[1..], LayoutOf) && |format[1..]| == 0;
    Ok(layout)
  }

  /** The translation distributes over concatenation. */
  lemma {:induction false} TranslateConcat(a: string, b: string, layout: char -> string)
    ensures Translate(a + b, layout) == Translate(a, layout) + Translate(b, layout)
    decreases |a|
  {
    if |a| > 0 {
      TranslateConcat(a[1..], b, layout);
      assert (a + b)[0] == a[0];
      assert (a + b)[1..] == a[1..] + b;
    } else {
      assert a + b == b;
    }
  }

  /** One byte followed by the rest of the format. */
  lemma {:induction false} TranslateCons(c: char, rest: string, layout: char -> string)
    ensures Translate([c] + rest, layout) == layout(c) + Translate(rest, layout)
  {
    assert ([c] + rest)[1..] == rest;
  }

  /** Three translated pieces put together. */
  lemma {:induction false} TranslateJoin(a: string, b: string, c: string, layout: char -> string, x: string, y: string, z: string)
    requires Translate(a, layout) == x && Translate(b, layout) == y && Translate(c, layout) == z
    ensures Translate(a + (b + c), layout) == x + (y + z)
  {
    TranslateConcat(a, b + c, layout);
    TranslateConcat(b, c, layout);
  }

  /** A format of one byte. */
  lemma {:induction false} TranslateSingle(c: char, layout: char -> string)
    ensures Translate([c], layout) == layout(c)
  {
    assert [c][1..] == "";
  }

  /** A format of two bytes. */
  lemma {:induction false} TranslatePair(x: char, y: char, layout: char -> string)
    ensures Translate([x, y], layout) == layout(x) + layout(y)
  {
    assert [x, y][1..] == [y];
    TranslateSingle(y, layout);
  }

  /** A format of five bytes. */
  lemma {:induction false} TranslateFive(a: char, b: char, c: char, d: char, e: char, layout: char -> string)
    ensures Translate([a, b, c, d, e], layout) == layout(a) + layout(b) + layout(c) + layout(d) + layout(e)
  {
    assert [a, b, c, d, e] == [a, b] + [c, d, e];
    assert [c, d, e] == [c] + [d, e];
    TranslateConcat([a, b], [c, d, e], layout);
    TranslatePair(a, b, layout);
    TranslateCons(c, [d, e], layout);
    TranslatePair(d, e, layout);
  }

  /** Two layouts that agree on every byte of the format translate it alike. */
  lemma {:induction false} TranslateAgree(format: string, f: char -> string, g: char -> string)
    requires forall i :: 0 <= i < |format| ==> f(format[i]) == g(format[i])
    ensures Translate(format, f) == Translate(format, g)
    decreases |format|
  {
    if |format| > 0 {
      assert forall i :: 0 <= i < |format| - 1 ==> format[1..][i] == format[i + 1];
      TranslateAgree(format[1..], f, g);
    }
  }

  /** Every byte that is no code, or a code without layout, is copied unchanged: a
      format of such bytes translates to itself. */
  lemma {:induction false} TranslateCopies(format: string)
    requires forall i :: 0 <= i < |format| ==> LayoutOf(format[i]) == [format[i]]
    ensures Translate(format, LayoutOf) == format
    decreases |format|
  {
    if |format| > 0 {
      assert forall i :: 0 <= i < |format| - 1 ==> format[1..][i] == format[i + 1];
      TranslateCopies(format[1..]);
      assert format == [format[0]] + format[1..];
    }
  }

  /** `Format` distributes over concatenation, the empty format gives the empty layout,
      one byte gives its layout, and the wrapped time plays no part. */
  lemma {:induction false} FormatHomomorphic(d: Date, e: Date, a: string, b: string, c: char)
    ensures Format(d, a + b).value == Format(d, a).value + Format(d, b).value
    ensures Format(d, "") == Ok("")
    ensures Format(d, [c]) == Ok(LayoutOf(c))
    ensures Format(d, a) == Format(e, a)
  {
    TranslateConcat(a, b, LayoutOf);
    TranslateSingle(c, LayoutOf);
  }

  /** The layouts of the date bytes of the default format. */
  lemma {:induction false} DateCodes()
    ensures LayoutOf('Y') == "2006" && LayoutOf('m') == "01" && LayoutOf('d') == "02"
    ensures LayoutOf('-') == "-"
  {
  }

  /** The layouts of the time bytes of the default format, and of the space between. */
  lemma {:induction false} TimeCodes()
    ensures LayoutOf('H') == "15" && LayoutOf('i') == "04" && LayoutOf('s') == "05"
    ensures LayoutOf(':') == ":" && LayoutOf(' ') == " "
  {
  }

  /** Go's reference date and time, piece by piece. */
  lemma {:induction false} ReferenceTime()
    ensures "2006" + "-" + "01" + "-" + "02" == "2006-01-02"
    ensures "15" + ":" + "04" + ":" + "05" == "15:04:05"
    ensures "2006-01-02" + (" " + "15:04:05") == "2006-01-02 15:04:05"
  {
  }

  /** `Y-m-d H:i:s` under any layout that gives those bytes the layouts Go's reference
      time has. */
  lemma {:induction false} DefaultWith(layout: char -> string)
    requires layout('Y') == "2006" && layout('m') == "01" && layout('d') == "02" && layout('-') == "-"
    requires layout('H') == "15" && layout('i') == "04" && layout('s') == "05"
    requires layout(':') == ":" && layout(' ') == " "
    ensures Translate(DefaultFormat, layout) == "2006-01-02 15:04:05"
  {
    var date := ['Y', '-', 'm', '-', 'd'];
    var time := ['H', ':', 'i', ':', 's'];
    assert DefaultFormat == date + ([' '] + time);
    TranslateFive('Y', '-', 'm', '-', 'd', layout);
    TranslateFive('H', ':', 'i', ':', 's', layout);
    TranslateSingle(' ', layout);
    ReferenceTime();
    TranslateJoin(date, [' '], time, layout, "2006-01-02", " ", "15:04:05");
  }

  /** The default format translates to Go's `2006-01-02 15:04:05`. */
  lemma {:induction false} DefaultLayout(d: Date)
    ensures Format(d, DefaultFormat) == Ok("2006-01-02 15:04:05")
  {
    DateCodes();
    TimeCodes();
    DefaultWith(LayoutOf);
  }

  // ---------------------------------------------------------------------------
  // The byte copy as written
  // ---------------------------------------------------------------------------

  /** The layout for one byte as the source writes it: the byte is converted with
      `string(format[i])`, which treats it as a rune and so writes its UTF-8 encoding. */
  function LayoutAsWritten(c: char): (r: string)
    ensures c as int < 0x80 ==> r == LayoutOf(c)
  {
    var key := EncodeRune(c);
    match Lookup(key)
    case Some(layout) => if layout != "" then layout else key
    case None => key
  }

  /** `Date.Format` as written. */
  function FormatAsWritten(d: Date, format: string): (r: Result<string, string>)
    ensures r.Ok?
  {
    Ok(Translate(format, LayoutAsWritten))
  }

  /** On ASCII formats the source's byte copy and the intended one agree. */
  lemma {:induction false} AsciiFormatsAgree(d: Date, format: string)
    requires forall i :: 0 <= i < |format| ==> format[i] as int < 0x80
    ensures FormatAsWritten(d, format) == Format(d, format)
  {
    TranslateAgree(format, LayoutAsWritten, LayoutOf);
  }

  /** The format `"é"`, the bytes C3 A9 in UTF-8, comes back as the four bytes C3 83 C2 A9
      as written, where the intended translation keeps the two bytes it was given. */
  lemma {:induction false} NonAsciiReencoded(d: Date)
    ensures FormatAsWritten(d, "\U{C3}\U{A9}") == Ok("\U{C3}\U{83}\U{C2}\U{A9}")
    ensures Format(d, "\U{C3}\U{A9}") == Ok("\U{C3}\U{A9}")
  {
    assert LayoutAsWritten('\U{C3}') == "\U{C3}\U{83}";
    assert LayoutAsWritten('\U{A9}') == "\U{C2}\U{A9}";
    assert "\U{C3}\U{A9}" == ['\U{C3}', '\U{A9}'];
    TranslatePair('\U{C3}', '\U{A9}', LayoutAsWritten);
    TranslatePair('\U{C3}', '\U{A9}', LayoutOf);
    assert Translate("\U{C3}\U{A9}", LayoutAsWritten) == "\U{C3}\U{83}" + "\U{C2}\U{A9}";
    assert LayoutOf('\U{C3}') == "\U{C3}";
    assert LayoutOf('\U{A9}') == "\U{A9}";
    assert "\U{C3}\U{83}" + "\U{C2}\U{A9}" == "\U{C3}\U{83}\U{C2}\U{A9}";
    assert "\U{C3}" + "\U{A9}" == "\U{C3}\U{A9}";
  }
}
