/** Option and Result, used where the program returns null, a flag or throws. */
module Wrappers {

  datatype Option<+T> = None | Some(value: T)

  datatype Result<+T, +E> = Ok(value: T) | Err(error: E)

  /** All the values, or the first error. */
  function Collect<T, E>(rs: seq<Result<T, E>>): Result<seq<T>, E> {
    if rs == [] then Ok([])
    else match Collect(rs[..|rs| - 1])
      case Err(e) => Err(e)
      case Ok(vs) =>
        match rs[|rs| - 1]
        case Err(e) => Err(e)
        case Ok(v) => Ok(vs + [v])
  }

  lemma {:induction false} CollectFacts<T, E>(rs: seq<Result<T, E>>)
    ensures Collect(rs).Ok? <==> forall i | 0 <= i < |rs| :: rs[i].Ok?
    ensures Collect(rs).Ok? ==> |Collect(rs).value| == |rs| && forall i | 0 <= i < |rs| :: rs[i] == Ok(Collect(rs).value[i])
    ensures Collect(rs).Err? ==> exists i :: 0 <= i < |rs| && rs[i] == Err(Collect(rs).error)
  {
    if rs != [] {
      var n := |rs| - 1;
      CollectFacts(rs[..n]);
      assert forall i | 0 <= i < n :: rs[..n][i] == rs[i];
      if Collect(rs[..n]).Err? {
        var i :| 0 <= i < n && rs[..n][i] == Err(Collect(rs[..n]).error);
        assert rs[i].Err?;
      }
    }
  }
}
