/** The two array methods index.js chains over the configured files. */
module JsArrays {
  import opened Wrappers

  /**
   * `xs.map(f)` with a callback that may throw: the callback runs on each
   * element in index order, and the first throw aborts the whole map.
   */
  function MapUntilThrow<A, B, E>(xs: seq<A>, f: A --> Result<B, E>): (r: Result<seq<B>, E>)
    requires forall i :: 0 <= i < |xs| ==> f.requires(xs[i])
    ensures r.Success? <==> forall i :: 0 <= i < |xs| ==> f(xs[i]).Success?
    ensures r.Success? ==> |r.value| == |xs| && forall i :: 0 <= i < |xs| ==> r.value[i] == f(xs[i]).value
    ensures r.Failure? ==> exists i :: (0 <= i < |xs| && f(xs[i]) == Failure(r.error)
      && forall j :: 0 <= j < i ==> f(xs[j]).Success?)
  {
    if xs == [] then Success([])
    else match f(xs[0])
      case Failure(e) => Failure(e)
      case Success(y) =>
        assert forall i :: 0 < i < |xs| ==> xs[i] == xs[1..][i - 1];
        match MapUntilThrow(xs[1..], f)
        case Failure(e) =>
          ghost var i :| 0 <= i < |xs| - 1 && f(xs[1..][i]) == Failure(e)
            && forall j :: 0 <= j < i ==> f(xs[1..][j]).Success?;
          assert f(xs[i + 1]) == Failure(e);
          Failure(e)
        case Success(ys) => Success([y] + ys)
  }

  /**
   * `xs.filter(x => x != null)`: the present values, in their order.
   * `FilterPresentCounts` says each is kept as often as it is present;
   * `FilterPresentAppend` and the two one-element cases pin the order.
   */
  function FilterPresent<T>(xs: seq<Option<T>>): (r: seq<T>)
    ensures |r| <= |xs|
    ensures forall i :: 0 <= i < |r| ==> Some(r[i]) in xs
    ensures forall i :: 0 <= i < |xs| && xs[i].Some? ==> xs[i].value in r
  {
    if xs == [] then []
    else
      assert forall i :: 0 < i < |xs| ==> xs[i] == xs[1..][i - 1];
      (if xs[0].Some? then [xs[0].value] else []) + FilterPresent(xs[1..])
  }

  /** How often `y` occurs in `[x] + s`. */
  lemma CountCons<T>(x: T, s: seq<T>, y: T)
    ensures multiset([x] + s)[y] == (if x == y then 1 else 0) + multiset(s)[y]
  {
    assert multiset([x] + s) == multiset([x]) + multiset(s);
  }

  /** How often `y` occurs in a non-empty `s`, counted from its head. */
  lemma CountHead<T>(s: seq<T>, y: T)
    requires |s| > 0
    ensures multiset(s)[y] == (if s[0] == y then 1 else 0) + multiset(s[1..])[y]
  {
    assert s == [s[0]] + s[1..];
    CountCons(s[0], s[1..], y);
  }

  /** Each value is kept exactly as many times as it is present. */
  lemma {:induction false} FilterPresentCounts<T>(xs: seq<Option<T>>, v: T)
    ensures multiset(FilterPresent(xs))[v] == multiset(xs)[Some(v)]
    decreases |xs|
  {
    if xs != [] {
      var head: seq<T> := if xs[0].Some? then [xs[0].value] else [];
      var rest := FilterPresent(xs[1..]);
      FilterPresentCounts(xs[1..], v);
      CountHead(xs, Some(v));
      assert FilterPresent(xs) == head + rest;
      if xs[0].Some? {
        CountCons(xs[0].value, rest, v);
      }
    }
  }

  /** A present value is kept. */
  lemma FilterPresentSome<T>(x: T)
    ensures FilterPresent([Some(x)]) == [x]
  {
    assert [Some(x)][1..] == [];
  }

  /** A missing value is dropped. */
  lemma FilterPresentNone<T>()
    ensures FilterPresent<T>([None]) == []
  {
    var xs: seq<Option<T>> := [None];
    assert xs[1..] == [];
  }

  /** Filtering a concatenation filters each part and keeps them in order. */
  lemma {:induction false} FilterPresentAppend<T>(xs: seq<Option<T>>, ys: seq<Option<T>>)
    ensures FilterPresent(xs + ys) == FilterPresent(xs) + FilterPresent(ys)
    decreases |xs|
  {
    if xs == [] {
      assert xs + ys == ys;
    } else {
      assert (xs + ys)[0] == xs[0];
      assert (xs + ys)[1..] == xs[1..] + ys;
      FilterPresentAppend(xs[1..], ys);
    }
  }
}
