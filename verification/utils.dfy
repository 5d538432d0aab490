/**
 `Length` of package functions/utils: like `Length` of package functions, but it also
 counts the elements of a `[]any`.
 */
module Utils {
  import opened Wrappers
  import opened Strings
  import opened Values
  import Functions

  /** The count the filter prints: bytes of a string or a `[]byte`, elements of a
      `[]any`; nothing for any other value. */
  function Size(value: Value): (n: Option<nat>)
    ensures n.Some? <==> value.Str? || value.Bytes? || value.List?
  {
    match value
    case Str(s) => Some(|s|)
    case Bytes(d) => Some(|d|)
    case List(items) => Some(|items|)
    case _ => None
  }

  /** `Length`: the count printed in decimal as a string; any other value, nil and maps
      included, is an error. The arguments are ignored. */
  function Length(value: Value, params: seq<Value>): (r: FilterOut)
    ensures r.Returned?
    ensures r.err.None? <==> Size(value).Some?
    ensures r.err.Some? ==> r.value == Nil
    ensures r.err.None? ==> r.value.Str? && (InInt64(Size(value).value) ==> Atoi(r.value.s) == Size(value))
  {
    match Size(value)
    case Some(n) =>
      ItoaReadsBack(n);
      Done(Str(Itoa(n)))
    case None => Fail(Nil, "length function expected string or bytes")
  }

  /** On strings and `[]byte` both `Length` filters agree; on a `[]any` only this one
      succeeds. */
  lemma {:induction false} LengthExtends(value: Value, p: seq<Value>, q: seq<Value>)
    ensures !value.List? ==> Length(value, p).err.None? == Functions.Length(value, q).err.None?
    ensures value.Str? || value.Bytes? ==> Length(value, p) == Functions.Length(value, q)
    ensures value.List? ==> Length(value, p).err.None? && Functions.Length(value, q).err.Some?
  {
  }
}
