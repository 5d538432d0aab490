/**
 The filter of package functions/boolean that needs no arithmetic: `Not`.
 */
module Boolean {
  import opened Values
  import Functions

  /** `Not`: the negated truth of the value as a bool, with no error, whatever the
      arguments. */
  function Not(value: Value, params: seq<Value>): (r: FilterOut)
    ensures r.Returned? && r.err.None? && r.value.Bool?
    ensures r.value.flag <==> !Functions.ConditionIsTrue(value)
  {
    Done(Bool(!Functions.ConditionIsTrue(value)))
  }

  /** Negating twice gives the truth of the value as a bool; on a bool that is the bool
      itself. */
  lemma {:induction false} NotNot(value: Value, p: seq<Value>, q: seq<Value>)
    ensures Not(Not(value, p).value, q) == Done(Bool(Functions.ConditionIsTrue(value)))
    ensures value.Bool? ==> Not(Not(value, p).value, q) == Done(value)
  {
  }

  /** Nil, the empty string, `"false"`, zero, a negative int and a map are false, so
      their negation is true; any other non-empty string is true. */
  lemma {:induction false} NotCases(m: map<string, Value>, n: int)
    requires n <= 0
    ensures Not(Nil, []) == Done(Bool(true))
    ensures Not(Str(""), []) == Done(Bool(true))
    ensures Not(Str("false"), []) == Done(Bool(true))
    ensures Not(Int(n), []) == Done(Bool(true))
    ensures Not(Map(m), []) == Done(Bool(true))
    ensures Not(Str("x"), []) == Done(Bool(false))
  {
  }
}
