/** Sorting real numbers: the specification the detector's two sorts are read against. */
module SortedReals {

  function Insert(x: real, s: seq<real>): (r: seq<real>)
    ensures |r| == |s| + 1
  {
    if s == [] || x <= s[0] then [x] + s else [s[0]] + Insert(x, s[1..])
  }

  function Sort(s: seq<real>): (r: seq<real>)
    ensures |r| == |s|
  {
    if s == [] then [] else Insert(s[0], Sort(s[1..]))
  }

  ghost predicate Ascending(s: seq<real>) {
    forall i, j :: 0 <= i < j < |s| ==> s[i] <= s[j]
  }

  lemma {:induction false} InsertMultiset(x: real, s: seq<real>)
    ensures multiset(Insert(x, s)) == multiset(s) + multiset{x}
  {
    if s != [] && x > s[0] {
      InsertMultiset(x, s[1..]);
      assert s == [s[0]] + s[1..];
    }
  }

  lemma {:induction false} InsertKeeps(x: real, s: seq<real>)
    requires Ascending(s)
    ensures Ascending(Insert(x, s))
  {
    if s != [] && x > s[0] {
      InsertKeeps(x, s[1..]);
      var tail := Insert(x, s[1..]);
      InsertMultiset(x, s[1..]);
      forall i | 0 <= i < |tail|
        ensures s[0] <= tail[i]
      {
        assert tail[i] in multiset(tail);
        if tail[i] != x {
          assert tail[i] in multiset(s[1..]);
        }
      }
    }
  }

  lemma {:induction false} SortSorts(s: seq<real>)
    ensures Ascending(Sort(s)) && multiset(Sort(s)) == multiset(s)
  {
    if s != [] {
      SortSorts(s[1..]);
      InsertKeeps(s[0], Sort(s[1..]));
      InsertMultiset(s[0], Sort(s[1..]));
      assert s == [s[0]] + s[1..];
    }
  }

  lemma FirstIsLeast(a: seq<real>, y: real)
    requires Ascending(a) && y in multiset(a)
    ensures a[0] <= y
  {
    var i :| 0 <= i < |a| && a[i] == y;
  }

  lemma RestMultiset(a: seq<real>)
    requires a != []
    ensures multiset(a[1..]) == multiset(a) - multiset{a[0]}
  {
    assert a == [a[0]] + a[1..];
  }

  lemma SameFirst(a: seq<real>, b: seq<real>)
    requires Ascending(a) && Ascending(b) && multiset(a) == multiset(b) && a != []
    ensures b != [] && a[0] == b[0] && multiset(a[1..]) == multiset(b[1..])
  {
    assert a[0] in multiset(b);
    FirstIsLeast(b, a[0]);
    FirstIsLeast(a, b[0]);
    RestMultiset(a);
    RestMultiset(b);
  }

  lemma SameParts(a: seq<real>, b: seq<real>)
    requires a != [] && b != [] && a[0] == b[0] && a[1..] == b[1..]
    ensures a == b
  {
    assert a == [a[0]] + a[1..] && b == [b[0]] + b[1..];
  }

  lemma {:induction false} AscendingUnique(a: seq<real>, b: seq<real>)
    requires Ascending(a) && Ascending(b) && multiset(a) == multiset(b)
    ensures a == b
  {
    if a == [] {
      assert |multiset(b)| == |b|;
    } else {
      SameFirst(a, b);
      AscendingUnique(a[1..], b[1..]);
      SameParts(a, b);
    }
  }

  /** Sorting forgets the order, and nothing else. */
  lemma SortIgnoresOrder(a: seq<real>, b: seq<real>)
    requires multiset(a) == multiset(b)
    ensures Sort(a) == Sort(b)
  {
    SortSorts(a);
    SortSorts(b);
    AscendingUnique(Sort(a), Sort(b));
  }

  function Shift(s: seq<real>, c: real): (r: seq<real>)
    ensures |r| == |s| && forall i :: 0 <= i < |s| ==> r[i] == s[i] + c
  {
    seq(|s|, i requires 0 <= i < |s| => s[i] + c)
  }

  lemma ShiftCons(x: real, s: seq<real>, c: real)
    ensures Shift([x] + s, c) == [x + c] + Shift(s, c)
    ensures s != [] ==> Shift(s, c)[1..] == Shift(s[1..], c)
  {
  }

  lemma {:induction false} InsertShift(x: real, s: seq<real>, c: real)
    ensures Insert(x + c, Shift(s, c)) == Shift(Insert(x, s), c)
  {
    ShiftCons(x, s, c);
    if s != [] && x > s[0] {
      InsertShift(x, s[1..], c);
      ShiftCons(s[0], Insert(x, s[1..]), c);
    }
  }

  lemma {:induction false} SortShift(s: seq<real>, c: real)
    ensures Sort(Shift(s, c)) == Shift(Sort(s), c)
  {
    if s != [] {
      SortShift(s[1..], c);
      assert Shift(s, c)[1..] == Shift(s[1..], c);
      InsertShift(s[0], Sort(s[1..]), c);
    }
  }

  // ---- Ranks ----------------------------------------------------------------

  /** How many members are smaller than `v`. */
  function Under(s: seq<real>, v: real): nat {
    if s == [] then 0 else (if s[0] < v then 1 else 0) + Under(s[1..], v)
  }

  /** How many members are at most `v`. */
  function UpTo(s: seq<real>, v: real): nat {
    if s == [] then 0 else (if s[0] <= v then 1 else 0) + UpTo(s[1..], v)
  }

  /** `v` is what stands at position `k` once the members are in order. */
  predicate Ranked(s: seq<real>, k: nat, v: real) {
    Under(s, v) <= k < UpTo(s, v)
  }

  lemma {:induction false} InsertCounts(x: real, s: seq<real>, v: real)
    ensures Under(Insert(x, s), v) == Under(s, v) + (if x < v then 1 else 0)
    ensures UpTo(Insert(x, s), v) == UpTo(s, v) + (if x <= v then 1 else 0)
  {
    if s == [] || x <= s[0] {
      assert ([x] + s)[1..] == s;
    } else {
      InsertCounts(x, s[1..], v);
      assert ([s[0]] + Insert(x, s[1..]))[1..] == Insert(x, s[1..]);
    }
  }

  lemma {:induction false} SortCounts(s: seq<real>, v: real)
    ensures Under(Sort(s), v) == Under(s, v) && UpTo(Sort(s), v) == UpTo(s, v)
  {
    if s != [] {
      SortCounts(s[1..], v);
      InsertCounts(s[0], Sort(s[1..]), v);
    }
  }

  lemma {:induction false} NoneUnder(s: seq<real>, v: real)
    requires forall i :: 0 <= i < |s| ==> v <= s[i]
    ensures Under(s, v) == 0
  {
    if s != [] {
      NoneUnder(s[1..], v);
    }
  }

  lemma {:induction false} RankAt(s: seq<real>, k: nat)
    requires Ascending(s) && k < |s|
    ensures Ranked(s, k, s[k])
  {
    if k == 0 {
      NoneUnder(s, s[0]);
    } else {
      RankAt(s[1..], k - 1);
    }
  }

  lemma {:induction false} CountsApart(s: seq<real>, v: real, w: real)
    requires v < w
    ensures UpTo(s, v) <= Under(s, w)
  {
    if s != [] {
      CountsApart(s[1..], v, w);
    }
  }

  /** Exactly one value has a rank, and sorting puts it there. */
  lemma RankedIff(s: seq<real>, k: nat, v: real)
    requires k < |s|
    ensures Ranked(s, k, v) <==> Sort(s)[k] == v
  {
    SortSorts(s);
    var w := Sort(s)[k];
    RankAt(Sort(s), k);
    SortCounts(s, w);
    if v < w {
      CountsApart(s, v, w);
    } else if w < v {
      CountsApart(s, w, v);
    }
  }

  // ---- Sorting and mapping --------------------------------------------------

  function Mapped(f: real -> real, s: seq<real>): (r: seq<real>)
    ensures |r| == |s|
  {
    seq(|s|, i requires 0 <= i < |s| => f(s[i]))
  }

  lemma MappedCons(f: real -> real, s: seq<real>)
    requires s != []
    ensures multiset(Mapped(f, s)) == multiset(Mapped(f, s[1..])) + multiset{f(s[0])}
  {
    assert Mapped(f, s) == [f(s[0])] + Mapped(f, s[1..]);
  }

  lemma SwapBags(whole: multiset<real>, part: multiset<real>, s: multiset<real>, rest: multiset<real>, x: real, y: real)
    requires whole == part + multiset{y} && part == rest + multiset{x} && s == rest + multiset{y}
    ensures whole == s + multiset{x}
  {
  }

  lemma {:induction false} MappedInsert(f: real -> real, x: real, s: seq<real>)
    ensures multiset(Mapped(f, Insert(x, s))) == multiset(Mapped(f, s)) + multiset{f(x)}
  {
    MappedCons(f, Insert(x, s));
    if s == [] || x <= s[0] {
      assert Insert(x, s)[1..] == s;
    } else {
      MappedInsert(f, x, s[1..]);
      MappedCons(f, s);
      assert Insert(x, s)[1..] == Insert(x, s[1..]);
      SwapBags(multiset(Mapped(f, Insert(x, s))), multiset(Mapped(f, Insert(x, s[1..]))), multiset(Mapped(f, s)),
               multiset(Mapped(f, s[1..])), f(x), f(s[0]));
    }
  }

  /** Sorting first changes nothing about the values a function takes. */
  lemma {:induction false} MappedSort(f: real -> real, s: seq<real>)
    ensures multiset(Mapped(f, Sort(s))) == multiset(Mapped(f, s))
  {
    if s != [] {
      MappedSort(f, s[1..]);
      MappedInsert(f, s[0], Sort(s[1..]));
      MappedCons(f, s);
    }
  }
}
