// Option and Result as the Rust code uses them. An error is carried as the
// text its `Display` implementation prints (src/error.rs), which is what the
// application shows and stores.

module Wrappers {
  datatype Option<T> = None | Some(value: T)

  datatype Result<T> = Ok(value: T) | Err(error: string)

  /// Text of `Error::Invalid { message }`.
  function Invalid(message: string): string
  {
    "Invalid: " + message
  }

  /// Text of `Error::Redis { source }`.
  function RedisError(detail: string): string
  {
    "Redis error: " + detail
  }

  /// The loop shape `for x in xs { if let Some(y) = f(x)? { out.push(y) } }`:
  /// stops at the first failing element, skips the ones that yield None and
  /// collects the rest in order.
  function CollectOk<A, B>(xs: seq<A>, f: A -> Result<Option<B>>): (r: Result<seq<B>>)
    ensures r.Ok? <==> forall i :: 0 <= i < |xs| ==> f(xs[i]).Ok?
    ensures r.Err? ==> exists i :: 0 <= i < |xs| && f(xs[i]) == Err(r.error)
                                   && forall j :: 0 <= j < i ==> f(xs[j]).Ok?
    ensures r.Ok? ==> |r.value| <= |xs|
    decreases |xs|
  {
    if xs == [] then Ok([])
    else
      var init := xs[..|xs| - 1];
      assert forall i :: 0 <= i < |init| ==> init[i] == xs[i];
      match CollectOk(init, f)
      case Err(e) => Err(e)
      case Ok(ys) =>
        match f(xs[|xs| - 1])
        case Err(e) => Err(e)
        case Ok(None) => Ok(ys)
        case Ok(Some(y)) => Ok(ys + [y])
  }

  /// Once a prefix has failed, the rest of the input does not matter.
  lemma {:induction false} CollectOkStopsAtError<A, B>(xs: seq<A>, n: nat, f: A -> Result<Option<B>>)
    requires n <= |xs| && CollectOk(xs[..n], f).Err?
    ensures CollectOk(xs, f) == CollectOk(xs[..n], f)
    decreases |xs|
  {
    if n < |xs| {
      var init := xs[..|xs| - 1];
      assert init[..n] == xs[..n];
      CollectOkStopsAtError(init, n, f);
    } else {
      assert xs[..n] == xs;
    }
  }

  /// One more element of the input: collected, skipped or failing.
  lemma CollectOkStep<A, B>(xs: seq<A>, i: nat, f: A -> Result<Option<B>>)
    requires i < |xs| && CollectOk(xs[..i], f).Ok?
    ensures f(xs[i]) == Ok(None) ==> CollectOk(xs[..i + 1], f) == CollectOk(xs[..i], f)
    ensures f(xs[i]).Ok? && f(xs[i]).value.Some? ==>
              CollectOk(xs[..i + 1], f) == Ok(CollectOk(xs[..i], f).value + [f(xs[i]).value.value])
    ensures f(xs[i]).Err? ==> CollectOk(xs[..i + 1], f) == Err(f(xs[i]).error)
  {
    assert xs[..i + 1][..i] == xs[..i];
  }
}
