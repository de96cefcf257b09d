/** A stable sort, standing for the standard library's `sort_by` and `sort_by_key`. */
module StableSort {

  /** `before` orders all values, up to ties. */
  ghost predicate WeakOrder<T(!new)>(before: (T, T) -> bool) {
    && (forall a, b :: before(a, b) ==> !before(b, a))
    && (forall a, b, c :: ChainsAt(before, a, b, c))
  }

  ghost predicate ChainsAt<T>(before: (T, T) -> bool, a: T, b: T, c: T) {
    !before(b, a) && !before(c, b) ==> !before(c, a)
  }

  ghost predicate Ordered<T>(before: (T, T) -> bool, xs: seq<T>) {
    forall i, j :: 0 <= i < j < |xs| ==> !before(xs[j], xs[i])
  }

  /** A value goes behind the ones it ties with. */
  function Place<T>(before: (T, T) -> bool, xs: seq<T>, x: T): seq<T> {
    if xs == [] then [x]
    else if before(x, xs[0]) then [x] + xs
    else [xs[0]] + Place(before, xs[1..], x)
  }

  function Sort<T>(before: (T, T) -> bool, xs: seq<T>): seq<T> {
    if xs == [] then [] else Place(before, Sort(before, xs[..|xs| - 1]), xs[|xs| - 1])
  }

  lemma {:induction false} PlaceContent<T>(before: (T, T) -> bool, xs: seq<T>, x: T)
    ensures multiset(Place(before, xs, x)) == multiset(xs) + multiset{x}
  {
    if xs != [] && !before(x, xs[0]) {
      PlaceContent(before, xs[1..], x);
      assert xs == [xs[0]] + xs[1..];
    }
  }

  lemma PlacedBehind<T(!new)>(before: (T, T) -> bool, xs: seq<T>, x: T, y: T)
    requires Ordered(before, xs) && xs != [] && !before(x, xs[0])
    requires y in multiset(xs[1..]) + multiset{x}
    ensures !before(y, xs[0])
  {
    if y != x {
      assert y in xs[1..];
      var k :| 0 <= k < |xs| - 1 && xs[1..][k] == y;
      assert xs[k + 1] == y;
    }
  }

  lemma {:induction false} PlaceOrdered<T(!new)>(before: (T, T) -> bool, xs: seq<T>, x: T)
    requires WeakOrder(before) && Ordered(before, xs)
    ensures Ordered(before, Place(before, xs, x))
  {
    if xs == [] {
    } else if before(x, xs[0]) {
      forall j | 0 <= j < |xs|
        ensures !before(xs[j], x)
      {
        assert j > 0 ==> ChainsAt(before, x, xs[0], xs[j]);
      }
    } else {
      var rest := Place(before, xs[1..], x);
      PlaceOrdered(before, xs[1..], x);
      PlaceContent(before, xs[1..], x);
      forall j | 0 <= j < |rest|
        ensures !before(rest[j], xs[0])
      {
        assert rest[j] in multiset(rest);
        PlacedBehind(before, xs, x, rest[j]);
      }
    }
  }

  lemma LastOfMultiset<T>(xs: seq<T>)
    requires xs != []
    ensures multiset(xs) == multiset(xs[..|xs| - 1]) + multiset{xs[|xs| - 1]}
  {
    assert xs == xs[..|xs| - 1] + [xs[|xs| - 1]];
  }

  /** Sorting leaves no value behind one it comes before, and loses and adds none. */
  lemma {:induction false} SortOrdered<T(!new)>(before: (T, T) -> bool, xs: seq<T>)
    requires WeakOrder(before)
    ensures Ordered(before, Sort(before, xs)) && multiset(Sort(before, xs)) == multiset(xs)
    decreases |xs|
  {
    if xs != [] {
      var init, last := xs[..|xs| - 1], xs[|xs| - 1];
      SortOrdered(before, init);
      PlaceOrdered(before, Sort(before, init), last);
      PlaceContent(before, Sort(before, init), last);
      LastOfMultiset(xs);
    }
  }

  // ---- Stability ------------------------------------------------------------

  predicate Ties<T>(before: (T, T) -> bool, a: T, b: T) {
    !before(a, b) && !before(b, a)
  }

  /** The values that tie with `k`, in order. */
  function Tied<T>(before: (T, T) -> bool, xs: seq<T>, k: T): seq<T> {
    if xs == [] then []
    else (if Ties(before, xs[0], k) then [xs[0]] else []) + Tied(before, xs[1..], k)
  }

  lemma {:induction false} TiedNone<T>(before: (T, T) -> bool, xs: seq<T>, k: T)
    requires forall i :: 0 <= i < |xs| ==> !Ties(before, xs[i], k)
    ensures Tied(before, xs, k) == []
  {
    if xs != [] {
      TiedNone(before, xs[1..], k);
    }
  }

  lemma TiedCons<T>(before: (T, T) -> bool, x: T, xs: seq<T>, k: T)
    ensures Tied(before, [x] + xs, k) == (if Ties(before, x, k) then [x] else []) + Tied(before, xs, k)
  {
    assert ([x] + xs)[1..] == xs;
  }

  lemma {:induction false} TiedAppend<T>(before: (T, T) -> bool, xs: seq<T>, x: T, k: T)
    ensures Tied(before, xs + [x], k) == Tied(before, xs, k) + (if Ties(before, x, k) then [x] else [])
  {
    if xs == [] {
      TiedCons(before, x, [], k);
      assert xs + [x] == [x] + [];
    } else {
      TiedAppend(before, xs[1..], x, k);
      TiedCons(before, xs[0], xs[1..] + [x], k);
      assert xs + [x] == [xs[0]] + (xs[1..] + [x]);
    }
  }

  lemma NoneTieBehind<T(!new)>(before: (T, T) -> bool, xs: seq<T>, x: T, k: T)
    requires WeakOrder(before) && xs != [] && Ordered(before, xs) && before(x, xs[0]) && Ties(before, x, k)
    ensures Tied(before, xs, k) == []
  {
    forall i | 0 <= i < |xs|
      ensures !Ties(before, xs[i], k)
    {
      assert i > 0 ==> !before(xs[i], xs[0]);
      assert ChainsAt(before, xs[0], xs[i], k);
      assert ChainsAt(before, xs[0], k, x);
    }
    TiedNone(before, xs, k);
  }

  lemma {:induction false} PlaceKeepsTies<T(!new)>(before: (T, T) -> bool, xs: seq<T>, x: T, k: T)
    requires WeakOrder(before) && Ordered(before, xs)
    ensures Tied(before, Place(before, xs, x), k) == Tied(before, xs, k) + (if Ties(before, x, k) then [x] else [])
  {
    if xs == [] {
      TiedCons(before, x, [], k);
    } else if before(x, xs[0]) {
      TiedCons(before, x, xs, k);
      if Ties(before, x, k) {
        NoneTieBehind(before, xs, x, k);
      }
    } else {
      PlaceKeepsTies(before, xs[1..], x, k);
      TiedCons(before, xs[0], Place(before, xs[1..], x), k);
      TiedCons(before, xs[0], xs[1..], k);
      assert xs == [xs[0]] + xs[1..];
    }
  }

  /** The sort is stable: values that tie keep the order they came in. */
  lemma {:induction false} SortKeepsTies<T(!new)>(before: (T, T) -> bool, xs: seq<T>, k: T)
    requires WeakOrder(before)
    ensures Tied(before, Sort(before, xs), k) == Tied(before, xs, k)
    decreases |xs|
  {
    if xs != [] {
      var init, last := xs[..|xs| - 1], xs[|xs| - 1];
      SortKeepsTies(before, init, k);
      SortOrdered(before, init);
      PlaceKeepsTies(before, Sort(before, init), last, k);
      TiedAppend(before, init, last, k);
      assert xs == init + [last];
    }
  }
}
