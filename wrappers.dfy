/** Option and Result, the shapes used for Python's None and for exceptions, and how failing steps compose. */
module Wrappers {

  datatype Option<+T> = None | Some(value: T)

  /** `Err` stands for an exception that propagates to the caller. */
  datatype Result<+T, +E> = Ok(value: T) | Err(error: E)

  /** Runs two steps that each produce a list: the first exception wins, otherwise the lists are joined. */
  function Then<T, E>(first: Result<seq<T>, E>, second: Result<seq<T>, E>): Result<seq<T>, E>
  {
    match first
    case Err(e) => Err(e)
    case Ok(xs) =>
      match second
      case Err(e) => Err(e)
      case Ok(ys) => Ok(xs + ys)
  }

  lemma ThenAssociative<T, E>(a: Result<seq<T>, E>, b: Result<seq<T>, E>, c: Result<seq<T>, E>)
    ensures Then(Then(a, b), c) == Then(a, Then(b, c))
  {
    if a.Ok? && b.Ok? && c.Ok? {
      assert (a.value + b.value) + c.value == a.value + (b.value + c.value);
    }
  }

  /** Runs `f` on each element in order, joining the lists; the first exception stops everything. */
  function ConcatMap<X, T, E>(f: X -> Result<seq<T>, E>, xs: seq<X>): Result<seq<T>, E>
  {
    if xs == [] then Ok([]) else Then(ConcatMap(f, xs[..|xs| - 1]), f(xs[|xs| - 1]))
  }

  /** The output for `a + b` is the output for `a` followed by the output for `b`. */
  lemma {:induction false} ConcatMapAppend<X, T, E>(f: X -> Result<seq<T>, E>, a: seq<X>, b: seq<X>)
    ensures ConcatMap(f, a + b) == Then(ConcatMap(f, a), ConcatMap(f, b))
    decreases |b|
  {
    if b == [] {
      assert a + b == a;
      if ConcatMap(f, a).Ok? {
        assert ConcatMap(f, a).value + [] == ConcatMap(f, a).value;
      }
    } else {
      var ab := a + b;
      var b' := b[..|b| - 1];
      assert ab[..|ab| - 1] == a + b';
      assert ab[|ab| - 1] == b[|b| - 1];
      ConcatMapAppend(f, a, b');
      ThenAssociative(ConcatMap(f, a), ConcatMap(f, b'), f(b[|b| - 1]));
    }
  }

  /** Every element of a successful output was produced by `f` on some input element. */
  lemma {:induction false} ConcatMapMember<X, T, E>(f: X -> Result<seq<T>, E>, xs: seq<X>, y: T)
    requires ConcatMap(f, xs).Ok? && y in ConcatMap(f, xs).value
    ensures exists k :: 0 <= k < |xs| && f(xs[k]).Ok? && y in f(xs[k]).value
  {
    var init := xs[..|xs| - 1];
    if y in ConcatMap(f, init).value {
      ConcatMapMember(f, init, y);
      var k :| 0 <= k < |init| && f(init[k]).Ok? && y in f(init[k]).value;
      assert init[k] == xs[k];
    }
  }

  /** In a successful run every element succeeds, and everything it produced is in the output. */
  lemma ConcatMapIncludes<X, T, E>(f: X -> Result<seq<T>, E>, xs: seq<X>, k: nat)
    requires k < |xs| && ConcatMap(f, xs).Ok?
    ensures f(xs[k]).Ok? && forall y :: y in f(xs[k]).value ==> y in ConcatMap(f, xs).value
  {
    var one := [xs[k]];
    assert one[..0] == [];
    assert ConcatMap(f, one) == Then(Ok([]), f(xs[k]));
    assert xs == (xs[..k] + one) + xs[k + 1..];
    ConcatMapAppend(f, xs[..k] + one, xs[k + 1..]);
    ConcatMapAppend(f, xs[..k], one);
  }

  /** Once an element fails, the whole run fails with its exception. */
  lemma ConcatMapStops<X, T, E>(f: X -> Result<seq<T>, E>, xs: seq<X>, k: nat)
    requires k < |xs| && ConcatMap(f, xs[..k]).Ok? && f(xs[k]).Err?
    ensures ConcatMap(f, xs) == Err(f(xs[k]).error)
  {
    assert xs[..k + 1][..k] == xs[..k];
    assert xs == xs[..k + 1] + xs[k + 1..];
    ConcatMapAppend(f, xs[..k + 1], xs[k + 1..]);
  }

  /** When `f` yields exactly one element for every input, the run succeeds with those elements in input order. */
  lemma {:induction false} ConcatMapSingletons<X, T, E>(f: X -> Result<seq<T>, E>, xs: seq<X>)
    requires forall i :: 0 <= i < |xs| ==> f(xs[i]).Ok? && |f(xs[i]).value| == 1
    ensures ConcatMap(f, xs).Ok? && |ConcatMap(f, xs).value| == |xs|
    ensures forall i :: 0 <= i < |xs| ==> ConcatMap(f, xs).value[i] == f(xs[i]).value[0]
  {
    if xs != [] {
      var init := xs[..|xs| - 1];
      assert forall i :: 0 <= i < |init| ==> init[i] == xs[i];
      ConcatMapSingletons(f, init);
    }
  }
}
