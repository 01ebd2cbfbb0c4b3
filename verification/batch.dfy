/**
 * `mapObjArr`, common to every variant: `mapObj` on each source in turn,
 * the results concatenated in source order; the first exception aborts.
 */
module Batch {
  import opened Wrappers
  import opened Values

  /** The outcome the loop is meant to produce: the first failure, or the in-order concatenation. */
  function Outcome<S, E>(f: S -> Result<seq<Value>, E>, xs: seq<S>): Result<seq<Value>, E> {
    if xs == [] then Ok([])
    else
      match f(xs[0])
      case Err(e) => Err(e)
      case Ok(head) =>
        match Outcome(f, xs[1..])
        case Err(e) => Err(e)
        case Ok(rest) => Ok(head + rest)
  }

  function Prepend<E>(prefix: seq<Value>, r: Result<seq<Value>, E>): Result<seq<Value>, E> {
    match r
    case Ok(v) => Ok(prefix + v)
    case Err(e) => Err(e)
  }

  /** The concatenation of the results of a list of successful calls. */
  function ConcatOk<S, E>(f: S -> Result<seq<Value>, E>, xs: seq<S>): seq<Value>
    requires forall i :: 0 <= i < |xs| ==> f(xs[i]).Ok?
  {
    if xs == [] then [] else f(xs[0]).value + ConcatOk(f, xs[1..])
  }

  /** The loop of `mapObjArr`, pushing every produced object onto the result. */
  method ForEachSource<S, E>(f: S -> Result<seq<Value>, E>, xs: seq<S>) returns (r: Result<seq<Value>, E>)
    ensures r == Outcome(f, xs)
  {
    var out: seq<Value> := [];
    var i := 0;
    assert xs[0..] == xs;
    assert Prepend(out, Outcome(f, xs)) == Outcome(f, xs) by {
      if Outcome(f, xs).Ok? {
        assert [] + Outcome(f, xs).value == Outcome(f, xs).value;
      }
    }
    while i < |xs|
      invariant 0 <= i <= |xs|
      invariant Outcome(f, xs) == Prepend(out, Outcome(f, xs[i..]))
    {
      assert xs[i..][1..] == xs[i + 1..];
      assert xs[i..][0] == xs[i];
      match f(xs[i])
      case Err(e) =>
        return Err(e);
      case Ok(objs) =>
        var j := 0;
        var out0 := out;
        while j < |objs|
          invariant 0 <= j <= |objs|
          invariant out == out0 + objs[..j]
        {
          out := out + [objs[j]];
          j := j + 1;
        }
        assert objs[..j] == objs;
        assert Prepend(out0, Outcome(f, xs[i..])) == Prepend(out, Outcome(f, xs[i + 1..])) by {
          if Outcome(f, xs[i + 1..]).Ok? {
            assert out0 + (objs + Outcome(f, xs[i + 1..]).value) == out + Outcome(f, xs[i + 1..]).value;
          }
        }
        i := i + 1;
    }
    assert xs[i..] == [];
    assert out + [] == out;
    return Ok(out);
  }

  /** `mapObjArr` succeeds exactly when every `mapObj` call does, and then returns their concatenation. */
  lemma {:induction false} OutcomeIsConcat<S, E>(f: S -> Result<seq<Value>, E>, xs: seq<S>)
    ensures Outcome(f, xs).Ok? <==> forall i :: 0 <= i < |xs| ==> f(xs[i]).Ok?
    ensures Outcome(f, xs).Ok? ==> Outcome(f, xs).value == ConcatOk(f, xs)
  {
    if xs != [] {
      OutcomeIsConcat(f, xs[1..]);
      assert forall i :: 1 <= i < |xs| ==> xs[1..][i - 1] == xs[i];
    }
  }
}
