/**
 What the filters need to know about a float64 that came from a template literal: its
 sign, whether `fmt.Sprint` prints it as a decimal integer, and its conversion to int.
 The literal is read exactly, as a decimal fraction; rounding to the 53-bit binary
 value is not modelled.
 */
module Floats {
  import opened Wrappers
  import opened Strings
  import Pipeline

  /** The value `(negative ? -1 : 1) * digits * 10^scale`. */
  datatype Decimal = Decimal(negative: bool, digits: nat, scale: int)

  function Pow10(n: nat): (r: nat)
    ensures r >= 1
  {
    if n == 0 then 1 else 10 * Pow10(n - 1)
  }

  lemma {:induction false} AllDigitsConcat(a: string, b: string)
    requires AllDigits(a) && AllDigits(b)
    ensures AllDigits(a + b)
  {
    assert forall i :: |a| <= i < |a + b| ==> (a + b)[i] == b[i - |a|];
  }

  /** The exact value of a literal in the decimal syntax strconv.ParseFloat accepts: sign,
      integer and fraction digits, optional exponent. Nothing else is read. */
  function ParseDecimal(s: string): (r: Option<Decimal>)
    ensures r.Some? <==> Pipeline.IsDecimalFloat(s)
    ensures r.Some? ==> (r.value.negative <==> s[0] == '-')
  {
    if !Pipeline.IsDecimalFloat(s) then None
    else
      var f := Pipeline.SplitDecimal(s);
      AllDigitsConcat(f.intPart, f.fracPart);
      var exp: int :=
        match f.exponent
        case None => 0
        case Some(x) =>
          if x[0] == '-' then 0 - DigitsValue(Pipeline.ExponentDigits(x)) else DigitsValue(Pipeline.ExponentDigits(x));
      Some(Decimal(|s| > 0 && s[0] == '-', DigitsValue(f.intPart + f.fracPart), exp - |f.fracPart|))
  }

  /** The special spellings: `inf`, `infinity` and `nan` in any case, the first two with an
      optional sign. */
  function SpecialBody(s: string): string {
    ToLower(if |s| > 0 && (s[0] == '+' || s[0] == '-') then s[1..] else s)
  }

  predicate IsInfinity(s: string) {
    SpecialBody(s) == "inf" || SpecialBody(s) == "infinity"
  }

  /** `f > 0` for the float64 a literal denotes: positive infinity, or a decimal with a
      non-zero digit and no minus sign. NaN and every zero are not positive. */
  predicate Positive(lit: string) {
    if IsInfinity(lit) then !(|lit| > 0 && lit[0] == '-')
    else
      match ParseDecimal(lit)
      case None => false
      case Some(d) => !d.negative && d.digits > 0
  }

  /** The magnitude of a decimal with its fraction dropped. */
  function Magnitude(d: Decimal): nat {
    if d.scale >= 0 then Scale(d.digits, Pow10(d.scale)) else Shrink(d.digits, Pow10(-d.scale))
  }

  /** `a * p`, written as repeated addition so that its sign needs no non-linear reasoning. */
  function Scale(a: nat, p: nat): nat {
    if a == 0 then 0 else p + Scale(a - 1, p)
  }

  /** `a / p` for a positive `p`. */
  function Shrink(a: nat, p: nat): nat
    requires p >= 1
  {
    a / p
  }

  /** The magnitude of a decimal, when it is a whole number. */
  function WholeMagnitude(d: Decimal): (r: Option<int>)
    ensures r.Some? ==> r.value == Magnitude(d)
    ensures r.Some? <==> d.scale >= 0 || d.digits % Pow10(-d.scale) == 0
  {
    if d.scale >= 0 || d.digits % Pow10(-d.scale) == 0 then Some(Magnitude(d)) else None
  }

  /** `strconv.Atoi(fmt.Sprint(f))`. `%v` prints a float64 in the shortest form that reads
      back, switching to exponent notation (`1e+06`) from a decimal exponent of 6 on, so
      only a whole number of magnitude below 10^6 prints as something Atoi accepts. */
  function PrintedInt(lit: string): (r: Option<int>)
    ensures r.Some? ==> -1_000_000 < r.value < 1_000_000
  {
    match ParseDecimal(lit)
    case None => None
    case Some(d) =>
      match WholeMagnitude(d)
      case None => None
      case Some(m) =>
        if m >= 1_000_000 then None
        else if d.negative then Some(0 - m) else Some(m)
  }

  /** `int(f)`: truncation toward zero. NaN, the infinities and values outside the int64
      range convert to the minimum int64, as they do on amd64. */
  function Truncate(lit: string): (r: int)
    ensures InInt64(r)
  {
    match ParseDecimal(lit)
    case None => MinInt64
    case Some(d) =>
      var m := Magnitude(d);
      var v := if d.negative then 0 - m else m;
      if InInt64(v) then v else MinInt64
  }

  /** A whole-number literal prints as its own integer value and truncates to it. */
  lemma {:induction false} PrintedIntIsTruncation(lit: string)
    requires PrintedInt(lit).Some?
    ensures Truncate(lit) == PrintedInt(lit).value
  {
    var d := ParseDecimal(lit).value;
    assert WholeMagnitude(d).value == Magnitude(d);
  }
}
