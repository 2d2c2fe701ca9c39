/** The error kinds of `InterpretError` and the outcome of a fallible call. */
module Errors {

  /** The two kinds an `InterpretError` is built with (src/errors.rs); the
      message text is not modelled. */
  datatype ErrorKind = TokenError | SyntaxError

  /** How a fallible call of the interpreter ends: with a value, with an
      `InterpretError` of some kind, or with a Rust panic (an index past the
      end, an `unwrap` of a failed `u32` parse, an arithmetic overflow), which
      aborts the whole program. */
  datatype Outcome<+T> = Ok(value: T) | Err(kind: ErrorKind) | Panic

  /** A failure carried over to a result of another type, as an early
      `return Err(e)` does. */
  function Propagate<T, U>(o: Outcome<T>): (r: Outcome<U>)
    requires !o.Ok?
    ensures !r.Ok? && (r.Err? <==> o.Err?) && (r.Err? ==> r.kind == o.kind)
  {
    if o.Err? then Err(o.kind) else Panic
  }

  /** `xs.iter().map(f).collect::<Result<Vec<_>, _>>()`: `f` is applied from
      left to right and the first failure ends the whole collection. */
  function CollectAll<A, B>(xs: seq<A>, f: A -> Outcome<B>): (r: Outcome<seq<B>>)
    decreases |xs|
  {
    if xs == [] then Ok([])
    else
      match CollectAll(xs[..|xs| - 1], f)
      case Ok(done) =>
        (match f(xs[|xs| - 1])
         case Ok(y) => Ok(done + [y])
         case Err(k) => Err(k)
         case Panic => Panic)
      case Err(k) => Err(k)
      case Panic => Panic
  }

  /** The collection succeeds exactly when every element succeeds, and then
      holds every element's value in order. */
  lemma {:induction false} CollectAllOk<A, B>(xs: seq<A>, f: A -> Outcome<B>)
    ensures CollectAll(xs, f).Ok? <==> forall i :: 0 <= i < |xs| ==> f(xs[i]).Ok?
    ensures CollectAll(xs, f).Ok? ==>
      |CollectAll(xs, f).value| == |xs| &&
      forall i :: 0 <= i < |xs| ==> CollectAll(xs, f).value[i] == f(xs[i]).value
    decreases |xs|
  {
    if xs != [] {
      var init := xs[..|xs| - 1];
      CollectAllOk(init, f);
      assert forall i :: 0 <= i < |init| ==> init[i] == xs[i];
    }
  }

  /** A failed collection fails as its first failing element does. */
  lemma {:induction false} CollectAllFirstFailure<A, B>(xs: seq<A>, f: A -> Outcome<B>)
    requires !CollectAll(xs, f).Ok?
    ensures exists i ::
      && 0 <= i < |xs|
      && (forall j :: 0 <= j < i ==> f(xs[j]).Ok?)
      && !f(xs[i]).Ok?
      && CollectAll(xs, f) == Propagate(f(xs[i]))
    decreases |xs|
  {
    var init := xs[..|xs| - 1];
    assert forall i :: 0 <= i < |init| ==> init[i] == xs[i];
    if CollectAll(init, f).Ok? {
      CollectAllOk(init, f);
      var i := |xs| - 1;
      assert (forall j :: 0 <= j < i ==> f(xs[j]).Ok?) && !f(xs[i]).Ok? && CollectAll(xs, f) == Propagate(f(xs[i]));
    } else {
      CollectAllFirstFailure(init, f);
      var i :| 0 <= i < |init| && (forall j :: 0 <= j < i ==> f(init[j]).Ok?) &&
        !f(init[i]).Ok? && CollectAll(init, f) == Propagate(f(init[i]));
      assert (forall j :: 0 <= j < i ==> f(xs[j]).Ok?) && !f(xs[i]).Ok? && CollectAll(xs, f) == Propagate(f(xs[i]));
    }
  }

  /** Once a prefix has failed, the elements after it change nothing. */
  lemma {:induction false} CollectAllFailurePersists<A, B>(xs: seq<A>, f: A -> Outcome<B>, n: nat)
    requires n <= |xs|
    requires !CollectAll(xs[..n], f).Ok?
    ensures CollectAll(xs, f) == CollectAll(xs[..n], f)
    decreases |xs| - n
  {
    if n < |xs| {
      assert xs[..n + 1][..n] == xs[..n];
      CollectAllFailurePersists(xs, f, n + 1);
    } else {
      assert xs[..n] == xs;
    }
  }

  /** One more successful element extends a successful collection. */
  lemma CollectAllSnoc<A, B>(xs: seq<A>, f: A -> Outcome<B>, n: nat)
    requires n < |xs|
    requires CollectAll(xs[..n], f).Ok? && f(xs[n]).Ok?
    ensures CollectAll(xs[..n + 1], f) == Ok(CollectAll(xs[..n], f).value + [f(xs[n]).value])
  {
    assert xs[..n + 1][..n] == xs[..n];
  }

  /** A one-element collection is that element's outcome. */
  lemma CollectAllSingle<A, B>(x: A, f: A -> Outcome<B>)
    ensures CollectAll([x], f) ==
      match f(x)
      case Ok(y) => Ok([y])
      case Err(k) => Err(k)
      case Panic => Panic
  {
    assert [x][..0] == [] && [x][0] == x;
    assert CollectAll([x][..0], f) == Ok([]);
    if f(x).Ok? {
      assert [] + [f(x).value] == [f(x).value];
    }
  }
}
