/** Failure-compatible wrappers shared by every module of the model.

    `Fault` names the Python exceptions the source lets escape when a value
    does not have the shape the code assumes (calling `.get` on a non-dict,
    iterating a number, subscripting a missing key, ...). The model reports
    them as `Err` instead of forbidding such inputs with a precondition.
 */
module Wrappers {

  datatype Fault =
    | TypeError      // operation applied to a value of the wrong type
    | AttributeError // `.get`, `.endswith`, ... called on a value that lacks it
    | KeyError       // `d[k]` on a dict without `k`

  datatype Option<+T> = None | Some(value: T) {
    function GetOr(default: T): T {
      match this
      case Some(v) => v
      case None => default
    }
  }

  datatype Result<+T> = Ok(value: T) | Err(fault: Fault) {
    predicate IsFailure() {
      Err?
    }

    function PropagateFailure<U>(): Result<U>
      requires Err?
    {
      Err(fault)
    }

    function Extract(): T
      requires Ok?
    {
      value
    }
  }

  /** The values of a sequence of results in order, or the first failure
      among them. */
  function Collect<T>(rs: seq<Result<T>>): (r: Result<seq<T>>)
    ensures r.Ok? <==> forall i :: 0 <= i < |rs| ==> rs[i].Ok?
    ensures r.Ok? ==> |r.value| == |rs| && forall i :: 0 <= i < |rs| ==> r.value[i] == rs[i].value
  {
    if |rs| == 0 then Ok([])
    else if rs[0].Err? then Err(rs[0].fault)
    else match Collect(rs[1..])
      case Err(f) => Err(f)
      case Ok(rest) => Ok([rs[0].value] + rest)
  }

  /** `f` applied to each element in order, or the first failure. */
  function Each<T, U>(xs: seq<T>, f: T -> Result<U>): (r: Result<seq<U>>)
    ensures r.Ok? <==> forall i :: 0 <= i < |xs| ==> f(xs[i]).Ok?
    ensures r.Ok? ==> |r.value| == |xs| && forall i :: 0 <= i < |xs| ==> r.value[i] == f(xs[i]).value
  {
    var rs := seq(|xs|, i requires 0 <= i < |xs| => f(xs[i]));
    assert forall i :: 0 <= i < |xs| ==> rs[i] == f(xs[i]);
    Collect(rs)
  }
}
