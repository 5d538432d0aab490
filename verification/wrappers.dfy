/** Optional values and value-or-error results, used by every other module. */
module Wrappers {

  datatype Option<+T> = None | Some(value: T)

  /** A Go `(value, error)` pair whose error is either nil (Ok) or not (Err). */
  datatype Result<+T, +E> = Ok(value: T) | Err(error: E)

  /** All the values of a sequence of results, or the first error among them (a Go loop
      that returns on its first error). */
  function Collect<T, E>(rs: seq<Result<T, E>>): (r: Result<seq<T>, E>)
    ensures r.Ok? <==> forall k :: 0 <= k < |rs| ==> rs[k].Ok?
    ensures r.Ok? ==> |r.value| == |rs| && forall k :: 0 <= k < |rs| ==> rs[k].value == r.value[k]
    ensures r.Err? ==> exists k :: 0 <= k < |rs| && rs[k] == Err(r.error) && forall j :: 0 <= j < k ==> rs[j].Ok?
  {
    if |rs| == 0 then Ok([])
    else if rs[0].Err? then Err(rs[0].error)
    else
      var rest := Collect(rs[1..]);
      assert forall k :: 1 <= k < |rs| ==> rs[k] == rs[1..][k - 1];
      if rest.Err? then
        assert exists k :: 0 <= k < |rs| && rs[k] == Err(rest.error) && forall j :: 0 <= j < k ==> rs[j].Ok? by {
          var k :| 0 <= k < |rs[1..]| && rs[1..][k] == Err(rest.error) && forall j :: 0 <= j < k ==> rs[1..][j].Ok?;
          assert rs[k + 1] == Err(rest.error);
        }
        Err(rest.error)
      else Ok([rs[0].value] + rest.value)
  }
}
