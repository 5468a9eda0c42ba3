/** Option, Result and the exceptions the protocol code raises. */
module Wrappers {

  datatype Option<+T> = None | Some(value: T)

  /** The exceptions raised by the EncPedPop code, by the primitives it calls
      and by the secret-sharing core. `InvalidContribution` carries the index
      of the participant to blame, or None when the coordinator is to blame. */
  datatype Error =
    | ValueError
    | IndexError
    | OverflowError
    | AssertionError
    | InvalidContribution(participant: Option<nat>, reason: string)

  /** A computation that either returns a value or raises an `Error`. */
  datatype Result<+T> = Ok(value: T) | Err(error: Error) {

    predicate IsFailure() {
      Err?
    }

    function PropagateFailure<U>(): Result<U>
      requires Err?
    {
      Err(error)
    }

    function Extract(): T
      requires Ok?
    {
      value
    }
  }

  /** Runs a sequence of fallible computations in order: the values of all of
      them when each succeeds, otherwise the error of the first that fails.
      This is the shape of every loop in the protocol code that appends one
      computed value per participant and lets the first exception escape. */
  function Collect<T>(rs: seq<Result<T>>): Result<seq<T>>
  {
    if rs == [] then Ok([])
    else
      match Collect(rs[..|rs| - 1])
      case Err(e) => Err(e)
      case Ok(vs) =>
        match rs[|rs| - 1]
        case Err(e) => Err(e)
        case Ok(v) => Ok(vs + [v])
  }

  /** Collect succeeds exactly when every computation does, and then returns
      their values in order. */
  lemma {:induction false} CollectOk<T>(rs: seq<Result<T>>)
    ensures Collect(rs).Ok? <==> forall i :: 0 <= i < |rs| ==> rs[i].Ok?
    ensures Collect(rs).Ok? ==>
      |Collect(rs).value| == |rs| &&
      forall i :: 0 <= i < |rs| ==> rs[i] == Ok(Collect(rs).value[i])
  {
    if rs != [] {
      CollectOk(rs[..|rs| - 1]);
      assert forall i :: 0 <= i < |rs| - 1 ==> rs[..|rs| - 1][i] == rs[i];
    }
  }

  /** Once a prefix has failed, further computations do not change the error. */
  lemma {:induction false} CollectErrPrefix<T>(rs: seq<Result<T>>, k: nat)
    requires k <= |rs|
    requires Collect(rs[..k]).Err?
    ensures Collect(rs) == Collect(rs[..k])
    decreases |rs| - k
  {
    if k < |rs| {
      assert rs[..k + 1][..k] == rs[..k];
      CollectErrPrefix(rs, k + 1);
    } else {
      assert rs[..k] == rs;
    }
  }

  /** A failed Collect has a first failing computation, and its error is
      the result. */
  lemma {:induction false} CollectErr<T>(rs: seq<Result<T>>)
    ensures Collect(rs).Err? ==>
      exists i :: 0 <= i < |rs| && (forall j :: 0 <= j < i ==> rs[j].Ok?) && rs[i] == Err(Collect(rs).error)
  {
    if rs != [] && Collect(rs).Err? {
      var init := rs[..|rs| - 1];
      assert forall j :: 0 <= j < |init| ==> init[j] == rs[j];
      if Collect(init).Err? {
        CollectErr(init);
        var i :| 0 <= i < |init| && (forall j :: 0 <= j < i ==> init[j].Ok?) && init[i] == Err(Collect(init).error);
        assert rs[i] == Err(Collect(rs).error);
      } else {
        CollectOk(init);
        assert rs[|rs| - 1] == Err(Collect(rs).error);
      }
    }
  }

  /** The first failing computation decides the error. */
  lemma CollectFirstError<T>(rs: seq<Result<T>>, i: nat)
    requires i < |rs|
    requires forall j :: 0 <= j < i ==> rs[j].Ok?
    requires rs[i].Err?
    ensures Collect(rs) == Err(rs[i].error)
  {
    CollectOk(rs[..i]);
    assert rs[..i + 1][..i] == rs[..i];
    CollectErrPrefix(rs, i + 1);
  }

  /** One more successful computation appends its value. */
  lemma CollectStep<T>(rs: seq<Result<T>>, i: nat, vs: seq<T>, v: T)
    requires i < |rs|
    requires Collect(rs[..i]) == Ok(vs)
    requires rs[i] == Ok(v)
    ensures Collect(rs[..i + 1]) == Ok(vs + [v])
  {
    assert rs[..i + 1][..i] == rs[..i];
  }

  /** A computation failing after a successful prefix is the error of the
      whole run. */
  lemma CollectAbort<T>(rs: seq<Result<T>>, i: nat)
    requires i < |rs|
    requires Collect(rs[..i]).Ok?
    requires rs[i].Err?
    ensures Collect(rs) == Err(rs[i].error)
  {
    CollectOk(rs[..i]);
    assert forall j :: 0 <= j < i ==> rs[..i][j] == rs[j];
    CollectFirstError(rs, i);
  }
}
