/** Failure-carrying datatypes shared by the scraper and cleaning models. */
module Wrappers {

  /** A value that may be absent: a markup element that was not found, an
      optional attribute, a pattern that did not match. */
  datatype Option<+T> = None | Some(value: T) {

    /** The carried value, or `default` when absent. */
    function GetOr(default: T): T {
      match this
      case Some(v) => v
      case None => default
    }
  }

  /** The outcome of a computation that may raise: Python's exceptions become
      `Failure` values. */
  datatype Result<+T, +E> = Success(value: T) | Failure(error: E)

  /** Runs two sequence-producing steps one after the other: the first failure
      wins, otherwise the outputs are concatenated in order. */
  function AppendResults<T, E>(a: Result<seq<T>, E>, b: Result<seq<T>, E>): (r: Result<seq<T>, E>)
    ensures r.Success? <==> a.Success? && b.Success?
    ensures r.Success? ==> r.value == a.value + b.value
    ensures a.Failure? ==> r == a
  {
    match a
    case Failure(e) => Failure(e)
    case Success(x) =>
      match b
      case Failure(e) => Failure(e)
      case Success(y) => Success(x + y)
  }

  /** Applies `f` to each element in order and keeps the `Some` results:
      the shape of a loop that appends a value or skips an element. */
  function FilterMap<A, B>(xs: seq<A>, f: A -> Option<B>): (r: seq<B>)
    ensures |r| <= |xs|
  {
    if xs == [] then []
    else
      var init := FilterMap(xs[..|xs| - 1], f);
      match f(xs[|xs| - 1])
      case None => init
      case Some(y) => init + [y]
  }

  /** Each element is handled on its own, so the results concatenate. */
  lemma {:induction false} FilterMapConcat<A, B>(a: seq<A>, b: seq<A>, f: A -> Option<B>)
    ensures FilterMap(a + b, f) == FilterMap(a, f) + FilterMap(b, f)
    decreases |b|
  {
    if b == [] {
      assert a + b == a;
    } else {
      var b' := b[..|b| - 1];
      assert (a + b)[..|a + b| - 1] == a + b';
      FilterMapConcat(a, b', f);
    }
  }

  /** Nothing is skipped exactly when `f` yields a value for every element. */
  lemma {:induction false} FilterMapKeepsAll<A, B>(xs: seq<A>, f: A -> Option<B>)
    ensures |FilterMap(xs, f)| == |xs| <==> forall k :: 0 <= k < |xs| ==> f(xs[k]).Some?
  {
    if xs != [] {
      var n := |xs| - 1;
      var init := xs[..n];
      FilterMapKeepsAll(init, f);
      assert forall k :: 0 <= k < n ==> init[k] == xs[k];
      if f(xs[n]).None? {
        assert |FilterMap(xs, f)| == |FilterMap(init, f)| <= n;
      }
    }
  }

  /** Every kept value is `f` of some element. */
  lemma {:induction false} FilterMapSource<A, B>(xs: seq<A>, f: A -> Option<B>, k: int)
    requires 0 <= k < |FilterMap(xs, f)|
    ensures exists j :: 0 <= j < |xs| && f(xs[j]) == Some(FilterMap(xs, f)[k])
  {
    var n := |xs| - 1;
    var init := xs[..n];
    if k < |FilterMap(init, f)| {
      FilterMapSource(init, f, k);
      var j :| 0 <= j < |init| && f(init[j]) == Some(FilterMap(init, f)[k]);
      assert init[j] == xs[j];
    }
  }

  /** Every element that `f` maps to a value has that value in the output. */
  lemma {:induction false} FilterMapKeepsSome<A, B>(xs: seq<A>, f: A -> Option<B>, k: int)
    requires 0 <= k < |xs| && f(xs[k]).Some?
    ensures f(xs[k]).value in FilterMap(xs, f)
  {
    var n := |xs| - 1;
    var init := xs[..n];
    if k < n {
      assert init[k] == xs[k];
      FilterMapKeepsSome(init, f, k);
    }
  }

  /** When `f` keeps every element as it is, nothing changes. */
  lemma {:induction false} FilterMapIdentity<A>(xs: seq<A>, f: A -> Option<A>)
    requires forall k :: 0 <= k < |xs| ==> f(xs[k]) == Some(xs[k])
    ensures FilterMap(xs, f) == xs
  {
    if xs != [] {
      var n := |xs| - 1;
      assert forall k :: 0 <= k < n ==> xs[..n][k] == xs[k];
      FilterMapIdentity(xs[..n], f);
      assert xs[..n] + [xs[n]] == xs;
    }
  }

  /** When `f` keeps every element, the i-th result is `f` of the i-th
      element. */
  lemma {:induction false} FilterMapAllSome<A, B>(xs: seq<A>, f: A -> Option<B>)
    requires forall k :: 0 <= k < |xs| ==> f(xs[k]).Some?
    ensures |FilterMap(xs, f)| == |xs|
    ensures forall k :: 0 <= k < |xs| ==> FilterMap(xs, f)[k] == f(xs[k]).value
  {
    if xs != [] {
      var n := |xs| - 1;
      assert forall k :: 0 <= k < n ==> xs[..n][k] == xs[k];
      FilterMapAllSome(xs[..n], f);
    }
  }

  /** Two sequences whose elements `f` and `g` keep or skip alike give
      results of the same length. */
  lemma {:induction false} FilterMapSameShape<A, B, C, D>(xs: seq<A>, f: A -> Option<B>, ys: seq<C>, g: C -> Option<D>)
    requires |xs| == |ys|
    requires forall k :: 0 <= k < |xs| ==> (f(xs[k]).Some? <==> g(ys[k]).Some?)
    ensures |FilterMap(xs, f)| == |FilterMap(ys, g)|
  {
    if xs != [] {
      var n := |xs| - 1;
      assert forall k :: 0 <= k < n ==> xs[..n][k] == xs[k] && ys[..n][k] == ys[k];
      FilterMapSameShape(xs[..n], f, ys[..n], g);
    }
  }

  /** Applies a step that may raise to each element in order: the first
      failure stops the run, otherwise the `Some` results are kept. The
      shape of a loop that appends, skips or raises. */
  function TryFilterMap<A, B, E>(xs: seq<A>, f: A -> Result<Option<B>, E>): (r: Result<seq<B>, E>)
    ensures r.Failure? <==> exists k :: 0 <= k < |xs| && f(xs[k]).Failure?
    ensures r.Failure? ==> exists k :: 0 <= k < |xs| && f(xs[k]) == Failure(r.error)
    ensures r.Success? ==> |r.value| <= |xs|
  {
    if xs == [] then Success([])
    else
      var n := |xs| - 1;
      assert forall k :: 0 <= k < n ==> xs[..n][k] == xs[k];
      match TryFilterMap(xs[..n], f)
      case Failure(e) => Failure(e)
      case Success(init) =>
        match f(xs[n])
        case Failure(e) => Failure(e)
        case Success(None) => Success(init)
        case Success(Some(y)) => Success(init + [y])
  }

  /** Each element is handled on its own, so runs concatenate. */
  lemma {:induction false} TryFilterMapConcat<A, B, E>(a: seq<A>, b: seq<A>, f: A -> Result<Option<B>, E>)
    ensures TryFilterMap(a + b, f) == AppendResults(TryFilterMap(a, f), TryFilterMap(b, f))
    decreases |b|
  {
    if b == [] {
      assert a + b == a;
      var ra := TryFilterMap(a, f);
      if ra.Success? {
        assert ra.value + [] == ra.value;
      }
    } else {
      var n := |b| - 1;
      assert (a + b)[..|a + b| - 1] == a + b[..n];
      assert (a + b)[|a + b| - 1] == b[n];
      TryFilterMapConcat(a, b[..n], f);
      var ra, rb := TryFilterMap(a, f), TryFilterMap(b[..n], f);
      if ra.Success? && rb.Success? && f(b[n]).Success? && f(b[n]).value.Some? {
        assert ra.value + (rb.value + [f(b[n]).value.value]) == (ra.value + rb.value) + [f(b[n]).value.value];
      }
    }
  }

  /** When no step fails, the run keeps what `g` keeps, where `g` is the
      step with its success unwrapped. */
  lemma {:induction false} TryFilterMapSucceeds<A, B, E>(xs: seq<A>, f: A -> Result<Option<B>, E>, g: A -> Option<B>)
    requires forall k :: 0 <= k < |xs| ==> f(xs[k]) == Success(g(xs[k]))
    ensures TryFilterMap(xs, f) == Success(FilterMap(xs, g))
  {
    if xs != [] {
      var n := |xs| - 1;
      assert forall k :: 0 <= k < n ==> xs[..n][k] == xs[k];
      TryFilterMapSucceeds(xs[..n], f, g);
    }
  }
}
