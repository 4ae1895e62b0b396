/** Optional values and results shared by every module of the model.
    A Python function that either returns a value or raises is modelled as a
    function returning `Result`, with the exception as the error value. */
module Base {

  datatype Option<+T> = None | Some(value: T)

  datatype Result<+T, +E> = Ok(value: T) | Err(error: E) {
    predicate IsFailure() {
      Err?
    }

    function PropagateFailure<U>(): Result<U, E>
      requires Err?
    {
      Err(error)
    }

    function Extract(): T
      requires Ok?
    {
      value
    }
  }

  /** A `for` loop that converts the items of `xs` from index `i` on, one at
      a time, appending each result to `acc` and stopping at the first item
      whose conversion fails. */
  function Collect<A, B, E>(xs: seq<A>, i: nat, acc: seq<B>, f: A --> Result<B, E>): Result<seq<B>, E>
    requires i <= |xs| && forall k :: 0 <= k < |xs| ==> f.requires(xs[k])
    decreases |xs| - i
  {
    if i == |xs| then Ok(acc)
    else match f(xs[i])
      case Err(e) => Err(e)
      case Ok(y) => Collect(xs, i + 1, acc + [y], f)
  }

  /** The loop succeeds exactly when every remaining item converts, and then
      yields `acc` followed by the converted items in order. */
  lemma {:induction false} CollectOutcome<A, B, E>(xs: seq<A>, i: nat, acc: seq<B>, f: A --> Result<B, E>)
    requires i <= |xs| && forall k :: 0 <= k < |xs| ==> f.requires(xs[k])
    ensures Collect(xs, i, acc, f).Ok? <==> forall k :: i <= k < |xs| ==> f(xs[k]).Ok?
    ensures Collect(xs, i, acc, f).Ok? ==>
      var r := Collect(xs, i, acc, f).value;
      |r| == |acc| + |xs| - i && r[..|acc|] == acc
      && forall k :: i <= k < |xs| ==> r[|acc| + k - i] == f(xs[k]).value
    decreases |xs| - i
  {
    if i < |xs| && f(xs[i]).Ok? {
      var acc' := acc + [f(xs[i]).value];
      CollectOutcome(xs, i + 1, acc', f);
      if Collect(xs, i, acc, f).Ok? {
        var r := Collect(xs, i, acc, f).value;
        assert r[..|acc'|] == acc';
        assert r[..|acc|] == acc'[..|acc|];
      }
    }
  }

  /** The whole loop, from the first item and an empty result. */
  lemma CollectAll<A, B, E>(xs: seq<A>, f: A --> Result<B, E>)
    requires forall k :: 0 <= k < |xs| ==> f.requires(xs[k])
    ensures Collect(xs, 0, [], f).Ok? <==> forall k :: 0 <= k < |xs| ==> f(xs[k]).Ok?
    ensures Collect(xs, 0, [], f).Ok? ==>
      |Collect(xs, 0, [], f).value| == |xs| && forall k :: 0 <= k < |xs| ==> Collect(xs, 0, [], f).value[k] == f(xs[k]).value
  {
    CollectOutcome(xs, 0, [], f);
    if Collect(xs, 0, [], f).Ok? {
      var r := Collect(xs, 0, [], f).value;
      forall k | 0 <= k < |xs|
        ensures r[k] == f(xs[k]).value
      {
        var empty: seq<B> := [];
        assert r[|empty| + k - 0] == f(xs[k]).value;
      }
    }
  }

  /** A failed loop reports the error of the first item that fails. */
  lemma {:induction false} CollectFirstFailure<A, B, E>(xs: seq<A>, i: nat, acc: seq<B>, f: A --> Result<B, E>)
    requires i <= |xs| && forall k :: 0 <= k < |xs| ==> f.requires(xs[k])
    requires Collect(xs, i, acc, f).Err?
    ensures exists k :: i <= k < |xs| && f(xs[k]).Err? && Collect(xs, i, acc, f).error == f(xs[k]).error &&
              forall j :: i <= j < k ==> f(xs[j]).Ok?
    decreases |xs| - i
  {
    if f(xs[i]).Ok? {
      CollectFirstFailure(xs, i + 1, acc + [f(xs[i]).value], f);
      var k :| i + 1 <= k < |xs| && f(xs[k]).Err? && Collect(xs, i + 1, acc + [f(xs[i]).value], f).error == f(xs[k]).error &&
               forall j :: i + 1 <= j < k ==> f(xs[j]).Ok?;
      assert forall j :: i <= j < k ==> f(xs[j]).Ok?;
    }
  }
}
