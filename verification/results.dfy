/**
 Optional values and success/failure results, standing in for the .NET
 `null` reference and for thrown exceptions.
 */
module Results {

  /** `None` plays the part of a null reference. */
  datatype Option<+T> = None | Some(value: T)

  /** `Err` plays the part of an exception the source throws. */
  datatype Result<+T, +E> = Ok(value: T) | Err(error: E)

  /** The values of a list of results, in order, or the error of the first
      result that failed (a loop that throws at its first bad element). */
  function Collect<T(==), E(==)>(rs: seq<Result<T, E>>): (r: Result<seq<T>, E>)
    ensures r.Ok? <==> forall k | 0 <= k < |rs| :: rs[k].Ok?
    ensures r.Ok? ==> |r.value| == |rs| && forall k | 0 <= k < |rs| :: rs[k] == Ok(r.value[k])
    ensures r.Err? ==> exists k :: FirstErrAt(rs, k, r.error)
    decreases |rs|
  {
    if |rs| == 0 then Ok([])
    else
      match rs[0]
      case Err(e) =>
        assert FirstErrAt(rs, 0, e);
        Err(e)
      case Ok(v) =>
        match Collect(rs[1..])
        case Err(e) =>
          FirstErrShift(rs, e);
          Err(e)
        case Ok(vs) =>
          assert forall k | 1 <= k < |rs| :: rs[k] == rs[1..][k - 1];
          Ok([v] + vs)
  }

  /** `rs[k]` is the first failed result, and it failed with `e`. */
  ghost predicate FirstErrAt<T, E>(rs: seq<Result<T, E>>, k: int, e: E) {
    0 <= k < |rs| && rs[k] == Err(e) && forall j | 0 <= j < k :: rs[j].Ok?
  }

  /** A first failure in the tail after a successful head is a first failure
      of the whole list. */
  lemma {:induction false} FirstErrShift<T, E>(rs: seq<Result<T, E>>, e: E)
    requires |rs| > 0 && rs[0].Ok?
    requires exists k :: FirstErrAt(rs[1..], k, e)
    ensures exists k :: FirstErrAt(rs, k, e)
  {
    var k :| FirstErrAt(rs[1..], k, e);
    assert rs[k + 1] == rs[1..][k];
    assert forall j | 1 <= j < k + 1 :: rs[j] == rs[1..][j - 1];
    assert FirstErrAt(rs, k + 1, e);
  }
}
