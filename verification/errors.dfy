/** Failure values shared by the whole model.

    The Go code reports failure in two ways: a returned `error` (for example
    from the pseudo-random generator) and a `panic` with a message.  Both end
    the protocol run, so both are modelled as `Err` carrying the message. */
module Errors {

  datatype Result<+T> = Ok(value: T) | Err(reason: string) {

    predicate IsFailure() {
      Err?
    }

    function PropagateFailure<U>(): Result<U>
      requires Err?
    {
      Err(reason)
    }

    function Extract(): T
      requires Ok?
    {
      value
    }
  }

  datatype Option<+T> = None | Some(value: T)

  /** Every result in order when all succeed; otherwise the first failure,
      as a loop that stops at its first error returns it. */
  function Sequence<T>(rs: seq<Result<T>>): (r: Result<seq<T>>)
    ensures r.Ok? <==> forall j :: 0 <= j < |rs| ==> rs[j].Ok?
    ensures r.Ok? ==> |r.value| == |rs| && forall j :: 0 <= j < |rs| ==> rs[j] == Ok(r.value[j])
    decreases |rs|
  {
    if rs == [] then Ok([])
    else
      var init, last := Sequence(rs[..|rs| - 1]), rs[|rs| - 1];
      if init.Err? then Err(init.reason)
      else if last.Err? then Err(last.reason)
      else
        assert forall j :: 0 <= j < |rs| - 1 ==> rs[j] == rs[..|rs| - 1][j];
        Ok(init.value + [last.value])
  }

  /** Non-negative integers as naturals, in order. */
  function ToNats(v: seq<int>): (r: seq<nat>)
    requires forall i :: 0 <= i < |v| ==> v[i] >= 0
    ensures |r| == |v| && forall i :: 0 <= i < |v| ==> r[i] as int == v[i]
  {
    seq(|v|, i requires 0 <= i < |v| => v[i] as nat)
  }
}
