/** Failure-compatible wrappers for the converter's error paths.
    The Python code raises `ValueError`; here every raising operation
    returns a `Result` whose `Err` case names the reason. */
module Results {

  datatype Option<+T> = None | Some(value: T)

  /** The reasons for which the core raises `ValueError`. */
  datatype Error =
    | EmptyDelimiter
    | UnmatchedDelimiter(delimiter: string, text: string)
    | NoTitleFound
    | SubstringNotFound(sub: string)

  datatype Result<+T> = Ok(value: T) | Err(error: Error) {

    predicate IsFailure() {
      Err?
    }

    function PropagateFailure<U>(): Result<U>
      requires Err?
    {
      Err(error)
    }

    function Extract(): T
      requires Ok?
    {
      value
    }
  }

  /** Applies `f` to every element, left to right, stopping at the first
      failure: the shape of a Python loop that appends `f(x)` and lets an
      exception escape. Defined on the last element so that a loop over a
      prefix `xs[..i]` can carry `MapAll(xs[..i], f) == Ok(acc)`. */
  function MapAll<A, B>(xs: seq<A>, f: A -> Result<B>): (r: Result<seq<B>>)
    ensures r.Ok? ==> |r.value| == |xs|
    decreases |xs|
  {
    if xs == [] then Ok([])
    else
      var init :- MapAll(xs[..|xs| - 1], f);
      var last :- f(xs[|xs| - 1]);
      Ok(init + [last])
  }

  /** One more loop iteration: extending the prefix by one element. */
  lemma MapAllStep<A, B>(xs: seq<A>, i: nat, f: A -> Result<B>)
    requires i < |xs|
    ensures MapAll(xs[..i + 1], f) ==
              match MapAll(xs[..i], f)
              case Err(e) => Err(e)
              case Ok(acc) =>
                match f(xs[i])
                case Err(e) => Err(e)
                case Ok(y) => Ok(acc + [y])
  {
    assert xs[..i + 1][..i] == xs[..i];
  }

  /** Once a prefix has failed, every longer prefix fails with the same error:
      the first failure left to right is the one reported. */
  lemma {:induction false} MapAllErrSticky<A, B>(xs: seq<A>, i: nat, f: A -> Result<B>)
    requires i <= |xs|
    requires MapAll(xs[..i], f).Err?
    ensures MapAll(xs, f) == MapAll(xs[..i], f)
    decreases |xs| - i
  {
    if i < |xs| {
      MapAllStep(xs, i, f);
      MapAllErrSticky(xs, i + 1, f);
      assert xs[..|xs|] == xs;
    } else {
      assert xs[..i] == xs;
    }
  }

  /** `MapAll` succeeds exactly when `f` succeeds on every element, and then
      its i-th result is `f`'s result on the i-th element. */
  lemma {:induction false} MapAllOk<A, B>(xs: seq<A>, f: A -> Result<B>)
    ensures MapAll(xs, f).Ok? <==> forall i :: 0 <= i < |xs| ==> f(xs[i]).Ok?
    ensures MapAll(xs, f).Ok? ==>
              forall i :: 0 <= i < |xs| ==> f(xs[i]) == Ok(MapAll(xs, f).value[i])
    decreases |xs|
  {
    if xs != [] {
      var init := xs[..|xs| - 1];
      MapAllOk(init, f);
      assert forall i :: 0 <= i < |init| ==> init[i] == xs[i];
    }
  }

  /** A failure carries the error of the first element on which `f` fails. */
  lemma {:induction false} MapAllFirstErr<A, B>(xs: seq<A>, f: A -> Result<B>)
    requires MapAll(xs, f).Err?
    ensures exists i :: 0 <= i < |xs| && f(xs[i]) == Err(MapAll(xs, f).error)
                        && forall j :: 0 <= j < i ==> f(xs[j]).Ok?
    decreases |xs|
  {
    var init := xs[..|xs| - 1];
    if MapAll(init, f).Err? {
      MapAllFirstErr(init, f);
      var i :| 0 <= i < |init| && f(init[i]) == Err(MapAll(init, f).error)
               && forall j :: 0 <= j < i ==> f(init[j]).Ok?;
      assert forall j :: 0 <= j <= i ==> init[j] == xs[j];
    } else {
      MapAllOk(init, f);
      assert forall j :: 0 <= j < |init| ==> init[j] == xs[j];
    }
  }
}
