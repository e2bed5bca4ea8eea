/** Failure-compatible wrappers used throughout the model. */
module Wrappers {

  /** A value that may be absent: a pandas NaN/NaT cell, a token that does not parse. */
  datatype Option<+T> = None | Some(value: T)

  /** The outcome of a step that can raise: `Err` carries what the program would raise. */
  datatype Result<+T, +E> = Ok(value: T) | Err(error: E)

  /** Steps run in order until one raises: all the values when none does, otherwise
      the failure of the first step that raises. */
  function Collect<T, E>(rs: seq<Result<T, E>>): (r: Result<seq<T>, E>)
    ensures r.Ok? <==> forall j :: 0 <= j < |rs| ==> rs[j].Ok?
    ensures r.Ok? ==> |r.value| == |rs| && forall j :: 0 <= j < |rs| ==> r.value[j] == rs[j].value
    ensures r.Err? ==> exists j :: 0 <= j < |rs| && rs[j] == Err(r.error) && forall k :: 0 <= k < j ==> rs[k].Ok?
  {
    if |rs| == 0 then Ok([])
    else
      match rs[0]
      case Err(e) => Err(e)
      case Ok(v) =>
        var rest := Collect(rs[1..]);
        assert forall j :: 0 < j < |rs| ==> rs[j] == rs[1..][j - 1];
        match rest
        case Err(e) =>
          assert exists j :: 0 < j < |rs| && rs[j] == Err(e) && forall k :: 0 <= k < j ==> rs[k].Ok? by {
            var j' :| 0 <= j' < |rs[1..]| && rs[1..][j'] == Err(e) && forall k :: 0 <= k < j' ==> rs[1..][k].Ok?;
            assert rs[j' + 1] == Err(e);
          }
          Err(e)
        case Ok(vs) => Ok([v] + vs)
  }

  /** When every step that succeeds yields the wanted value, collecting yields the
      wanted values whenever it succeeds. */
  lemma {:induction false} CollectAgrees<T, E>(rs: seq<Result<T, E>>, want: seq<T>)
    requires |want| == |rs|
    requires forall j :: 0 <= j < |rs| && rs[j].Ok? ==> rs[j].value == want[j]
    ensures Collect(rs).Ok? ==> Collect(rs).value == want
  {
  }
}
