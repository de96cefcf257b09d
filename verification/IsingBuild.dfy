/**
 Building the sparse problem: `build_problem` in src/bin/bio_quantum_record.rs.
 The random draws are inputs, and so is the outcome of the unstable sort, which
 is any order of a row that is sorted by column.
 */
module IsingBuild {
  import opened IsingSolver
  import StableSort

  /** A column and its weight. */
  type Entry = (nat, real)

  /** One weighted pair of sites. */
  datatype Draw = Draw(site: nat, other: nat, weight: real)

  // ---- The lists of neighbours ----------------------------------------------

  /** The site a random index stands for: never the drawing site itself. */
  function Other(n: nat, i: nat, j: nat): (r: nat)
    requires n >= 2 && i < n && j < n
    ensures r < n && r != i
  {
    if j == i then (j + 1) % n else j
  }

  /** The draws of one site. */
  function DrawsOf(n: nat, i: nat, random: seq<Entry>): seq<Draw>
    requires n >= 2 && i < n && forall t :: 0 <= t < |random| ==> random[t].0 < n
  {
    seq(|random|, t requires 0 <= t < |random| => Draw(i, Other(n, i, random[t].0), random[t].1))
  }

  ghost predicate RandomOk(n: nat, random: seq<seq<Entry>>) {
    n >= 2 && |random| <= n && forall i, t :: 0 <= i < |random| && 0 <= t < |random[i]| ==> random[i][t].0 < n
  }

  /** All draws, site by site. */
  function Draws(n: nat, random: seq<seq<Entry>>): seq<Draw>
    requires RandomOk(n, random)
  {
    if random == [] then []
    else Draws(n, random[..|random| - 1]) + DrawsOf(n, |random| - 1, random[|random| - 1])
  }

  /** What one draw appends to row `i`: both of its sites learn of the pair. */
  function Push(d: Draw, i: nat): seq<Entry> {
    (if d.site == i then [(d.other, d.weight)] else []) + (if d.other == i then [(d.site, d.weight)] else [])
  }

  function Pushes(draws: seq<Draw>, i: nat): seq<Entry> {
    if draws == [] then [] else Pushes(draws[..|draws| - 1], i) + Push(draws[|draws| - 1], i)
  }

  lemma PushesAppend(draws: seq<Draw>, d: Draw, i: nat)
    ensures Pushes(draws + [d], i) == Pushes(draws, i) + Push(d, i)
  {
    assert (draws + [d])[..|draws|] == draws;
  }

  ghost predicate RowsAre(n: nat, nbrs: seq<seq<Entry>>, drawn: seq<Draw>) {
    |nbrs| == n && forall r :: 0 <= r < n ==> nbrs[r] == Pushes(drawn, r)
  }

  lemma RowsPushed(n: nat, nbrs: seq<seq<Entry>>, drawn: seq<Draw>, i: nat, j: nat, w: real)
    requires RowsAre(n, nbrs, drawn) && i < n && j < n && i != j
    ensures RowsAre(n, nbrs[i := nbrs[i] + [(j, w)]][j := nbrs[j] + [(i, w)]], drawn + [Draw(i, j, w)])
  {
    var after := nbrs[i := nbrs[i] + [(j, w)]][j := nbrs[j] + [(i, w)]];
    forall r | 0 <= r < n
      ensures after[r] == Pushes(drawn + [Draw(i, j, w)], r)
    {
      PushesAppend(drawn, Draw(i, j, w), r);
      assert after[r] == nbrs[r] + Push(Draw(i, j, w), r);
    }
  }

  /** The loop that draws the pairs. */
  method Neighbours(n: nat, random: seq<seq<Entry>>) returns (nbrs: seq<seq<Entry>>)
    requires RandomOk(n, random) && |random| == n
    ensures |nbrs| == n && forall r :: 0 <= r < n ==> nbrs[r] == Pushes(Draws(n, random), r)
  {
    nbrs := seq(n, _ => []);
    ghost var drawn: seq<Draw> := [];
    for i := 0 to n
      invariant drawn == Draws(n, random[..i]) && RowsAre(n, nbrs, drawn)
    {
      ghost var before := drawn;
      for t := 0 to |random[i]|
        invariant drawn == before + DrawsOf(n, i, random[i])[..t] && RowsAre(n, nbrs, drawn)
      {
        var (index, w) := random[i][t];
        var j := Other(n, i, index);
        RowsPushed(n, nbrs, drawn, i, j, w);
        assert DrawsOf(n, i, random[i])[..t + 1] == DrawsOf(n, i, random[i])[..t] + [Draw(i, j, w)];
        nbrs := nbrs[i := nbrs[i] + [(j, w)]];
        nbrs := nbrs[j := nbrs[j] + [(i, w)]];
        drawn := drawn + [Draw(i, j, w)];
      }
      assert random[..i + 1][..i] == random[..i];
      assert drawn == before + DrawsOf(n, i, random[i]);
    }
    assert random[..n] == random;
  }

  // ---- Sorted rows without duplicates ---------------------------------------

  ghost predicate ByColumn(es: seq<Entry>) {
    forall a, b :: 0 <= a < b < |es| ==> es[a].0 <= es[b].0
  }

  /** `ys` is what `sort_unstable_by_key` may make of `xs`. */
  ghost predicate UnstableSort(xs: seq<Entry>, ys: seq<Entry>) {
    multiset(ys) == multiset(xs) && ByColumn(ys)
  }

  /** `dedup_by` on the column: the first of each group stays. */
  function Dedup(es: seq<Entry>): seq<Entry> {
    if |es| < 2 then es
    else
      var last := |es| - 1;
      Dedup(es[..last]) + (if es[last].0 == es[last - 1].0 then [] else [es[last]])
  }

  ghost predicate HasColumn(es: seq<Entry>, j: nat) {
    exists k :: 0 <= k < |es| && es[k].0 == j
  }

  /** The weight of the first entry for column `j`, zero if there is none. */
  function Kept(es: seq<Entry>, j: nat): real {
    if es == [] then 0.0 else if es[0].0 == j then es[0].1 else Kept(es[1..], j)
  }

  lemma {:induction false} KeptAppend(es: seq<Entry>, e: Entry, j: nat)
    ensures Kept(es + [e], j) == if HasColumn(es, j) then Kept(es, j) else if e.0 == j then e.1 else 0.0
  {
    if es == [] {
      assert es + [e] == [e];
    } else {
      KeptAppend(es[1..], e, j);
      assert (es + [e])[1..] == es[1..] + [e];
      if HasColumn(es[1..], j) {
        var k :| 0 <= k < |es| - 1 && es[1..][k].0 == j;
        assert es[k + 1].0 == j;
      }
      if HasColumn(es, j) && es[0].0 != j {
        var k :| 0 <= k < |es| && es[k].0 == j;
        assert es[1..][k - 1].0 == j;
      }
    }
  }

  lemma {:induction false} NoColumn(es: seq<Entry>, j: nat)
    requires !HasColumn(es, j)
    ensures Kept(es, j) == 0.0
  {
    if es != [] {
      assert es[0].0 != j;
      NoColumn(es[1..], j);
    }
  }

  lemma HasColumnAppend(es: seq<Entry>, e: Entry, j: nat)
    ensures HasColumn(es + [e], j) <==> HasColumn(es, j) || e.0 == j
  {
    if HasColumn(es, j) {
      var k :| 0 <= k < |es| && es[k].0 == j;
      assert (es + [e])[k].0 == j;
    }
    if e.0 == j {
      assert (es + [e])[|es|].0 == j;
    }
  }

  /** Strictly ascending columns. */
  ghost predicate Strict(es: seq<Entry>) {
    forall a, b :: 0 <= a < b < |es| ==> es[a].0 < es[b].0
  }

  /** Dropping duplicates leaves the columns strictly ascending. */
  lemma {:induction false} DedupStrict(es: seq<Entry>)
    requires ByColumn(es)
    ensures Strict(Dedup(es))
    ensures es != [] ==> Dedup(es) != [] && Dedup(es)[|Dedup(es)| - 1].0 == es[|es| - 1].0
    decreases |es|
  {
    if |es| >= 2 {
      DedupStrict(es[..|es| - 1]);
    }
  }

  /** Dropping duplicates leaves each column its first weight. */
  lemma {:induction false} DedupKeeps(es: seq<Entry>, j: nat)
    ensures Kept(Dedup(es), j) == Kept(es, j)
    ensures HasColumn(Dedup(es), j) <==> HasColumn(es, j)
    decreases |es|
  {
    if |es| >= 2 {
      var init, last := es[..|es| - 1], es[|es| - 1];
      DedupKeeps(init, j);
      assert es == init + [last];
      KeptAppend(init, last, j);
      HasColumnAppend(init, last, j);
      if last.0 == init[|init| - 1].0 {
        assert Dedup(es) == Dedup(init);
        assert HasColumn(init, last.0);
        if !HasColumn(init, j) {
          NoColumn(init, j);
        }
      } else {
        KeptAppend(Dedup(init), last, j);
        HasColumnAppend(Dedup(init), last, j);
      }
    }
  }

  // ---- The CSR form ---------------------------------------------------------

  function Flat(rows: seq<seq<Entry>>): seq<Entry> {
    if rows == [] then [] else Flat(rows[..|rows| - 1]) + rows[|rows| - 1]
  }

  function Columns(es: seq<Entry>): seq<nat> {
    seq(|es|, k requires 0 <= k < |es| => es[k].0)
  }

  function Weights(es: seq<Entry>): seq<real> {
    seq(|es|, k requires 0 <= k < |es| => es[k].1)
  }

  function Starts(rows: seq<seq<Entry>>): seq<nat> {
    seq(|rows| + 1, i requires 0 <= i <= |rows| => |Flat(rows[..i])|)
  }

  function Deduped(sorted: seq<seq<Entry>>): seq<seq<Entry>> {
    seq(|sorted|, i requires 0 <= i < |sorted| => Dedup(sorted[i]))
  }

  /** The problem over these sorted rows. */
  function Assembled(refSpin: seq<int>, h: seq<real>, sorted: seq<seq<Entry>>, alpha: real): Problem {
    var rows := Deduped(sorted);
    Problem(|sorted|, refSpin, h, Starts(rows), Columns(Flat(rows)), Weights(Flat(rows)), alpha)
  }

  lemma {:induction false} FlatPrefix(rows: seq<seq<Entry>>, i: nat)
    requires i <= |rows|
    ensures Flat(rows[..i]) <= Flat(rows)
    decreases |rows|
  {
    if i == |rows| {
      assert rows[..i] == rows;
    } else {
      FlatPrefix(rows[..|rows| - 1], i);
      assert rows[..|rows| - 1][..i] == rows[..i];
    }
  }

  /** Row `i` lies between its start and the next one's. */
  lemma FlatRow(rows: seq<seq<Entry>>, i: nat)
    requires i < |rows|
    ensures var lo := |Flat(rows[..i])|;
            && lo + |rows[i]| == |Flat(rows[..i + 1])| <= |Flat(rows)|
            && forall k :: 0 <= k < |rows[i]| ==> Flat(rows)[lo + k] == rows[i][k]
  {
    assert rows[..i + 1][..i] == rows[..i];
    FlatPrefix(rows, i + 1);
    var whole := Flat(rows[..i + 1]);
    assert whole == Flat(rows[..i]) + rows[i];
    forall k | 0 <= k < |rows[i]|
      ensures Flat(rows)[|Flat(rows[..i])| + k] == rows[i][k]
    {
      assert whole[|Flat(rows[..i])| + k] == rows[i][k];
    }
  }

  /** The random draws' shape, and outcomes of the sort for their rows. */
  ghost predicate MayYield(n: nat, draws: seq<Draw>, sorted: seq<seq<Entry>>) {
    |sorted| == n && forall i :: 0 <= i < n ==> UnstableSort(Pushes(draws, i), sorted[i])
  }

  ghost predicate DrawsOk(n: nat, draws: seq<Draw>) {
    forall k :: 0 <= k < |draws| ==> draws[k].site < n && draws[k].other < n && draws[k].site != draws[k].other
  }

  ghost predicate SitesOk(n: nat, refSpin: seq<int>, h: seq<real>) {
    0 < n && |refSpin| == n && |h| == n && forall i :: 0 <= i < n ==> refSpin[i] == 1 || refSpin[i] == -1
  }

  /** A draw of the pair of `i` and `j` with this weight. */
  predicate Pairs(d: Draw, i: nat, j: nat, w: real) {
    d.weight == w && ((d.site == i && d.other == j) || (d.site == j && d.other == i))
  }

  ghost predicate Drawn(draws: seq<Draw>, i: nat, j: nat, w: real) {
    exists k :: 0 <= k < |draws| && Pairs(draws[k], i, j, w)
  }

  lemma DrawnLast(init: seq<Draw>, last: Draw, i: nat, j: nat, w: real)
    ensures Drawn(init + [last], i, j, w) <==> Drawn(init, i, j, w) || Pairs(last, i, j, w)
  {
    var draws := init + [last];
    if k :| 0 <= k < |init| && Pairs(init[k], i, j, w) {
      assert Pairs(draws[k], i, j, w);
    }
    assert draws[|init|] == last;
  }

  /** A row holds a weight for a column exactly when that pair was drawn with it. */
  lemma {:induction false} PushedIff(draws: seq<Draw>, i: nat, j: nat, w: real)
    ensures (j, w) in Pushes(draws, i) <==> Drawn(draws, i, j, w)
  {
    if draws != [] {
      var init, last := draws[..|draws| - 1], draws[|draws| - 1];
      PushedIff(init, i, j, w);
      DrawnLast(init, last, i, j, w);
      assert init + [last] == draws;
      assert (j, w) in Push(last, i) <==> Pairs(last, i, j, w);
    }
  }

  // ---- Weights of the built problem -----------------------------------------

  lemma AssembledValid(n: nat, refSpin: seq<int>, h: seq<real>, draws: seq<Draw>, sorted: seq<seq<Entry>>, alpha: real)
    requires SitesOk(n, refSpin, h) && DrawsOk(n, draws) && MayYield(n, draws, sorted)
    ensures Assembled(refSpin, h, sorted, alpha).Valid()
  {
    var rows := Deduped(sorted);
    var p := Assembled(refSpin, h, sorted, alpha);
    forall i, j | 0 <= i <= j <= n
      ensures p.rowPtr[i] <= p.rowPtr[j] <= |p.w|
    {
      FlatPrefix(rows[..j], i);
      assert rows[..j][..i] == rows[..i];
      FlatPrefix(rows, j);
    }
    forall i | 0 <= i < n
      ensures ColumnsBelow(rows[i], n)
    {
      RowColumns(draws, i, sorted[i], n);
    }
    FlatColumns(rows, n);
  }

  ghost predicate ColumnsBelow(es: seq<Entry>, n: nat) {
    forall k :: 0 <= k < |es| ==> es[k].0 < n
  }

  lemma {:induction false} FlatColumns(rows: seq<seq<Entry>>, n: nat)
    requires forall i :: 0 <= i < |rows| ==> ColumnsBelow(rows[i], n)
    ensures ColumnsBelow(Flat(rows), n)
  {
    if rows != [] {
      assert ColumnsBelow(rows[|rows| - 1], n);
      FlatColumns(rows[..|rows| - 1], n);
    }
  }

  lemma RowColumns(draws: seq<Draw>, i: nat, ys: seq<Entry>, n: nat)
    requires DrawsOk(n, draws) && UnstableSort(Pushes(draws, i), ys)
    ensures ColumnsBelow(Dedup(ys), n)
  {
    forall k | 0 <= k < |Dedup(ys)|
      ensures Dedup(ys)[k].0 < n
    {
      var j := Dedup(ys)[k].0;
      DedupKeeps(ys, j);
      assert HasColumn(ys, j);
      var e :| 0 <= e < |ys| && ys[e].0 == j;
      var d := DrawnFor(draws, i, ys, e);
    }
  }

  /** Every entry of a sorted row comes from a draw of its pair. */
  lemma DrawnFor(draws: seq<Draw>, i: nat, ys: seq<Entry>, e: nat) returns (d: nat)
    requires UnstableSort(Pushes(draws, i), ys) && e < |ys|
    ensures d < |draws| && Pairs(draws[d], i, ys[e].0, ys[e].1)
  {
    assert ys[e] in multiset(ys);
    assert ys[e] == (ys[e].0, ys[e].1) && ys[e] in Pushes(draws, i);
    PushedIff(draws, i, ys[e].0, ys[e].1);
    d :| d < |draws| && Pairs(draws[d], i, ys[e].0, ys[e].1);
  }

  /** The entries of a problem from `lo` on are this row. */
  ghost predicate RowAt(p: Problem, lo: nat, row: seq<Entry>) {
    && lo + |row| <= |p.w| && |p.w| == |p.colIdx|
    && forall k :: 0 <= k < |row| ==> p.colIdx[lo + k] == row[k].0 && p.w[lo + k] == row[k].1
  }

  lemma {:induction false} RowWeightIs(p: Problem, lo: nat, row: seq<Entry>, m: nat, j: nat)
    requires p.Valid() && RowAt(p, lo, row) && m <= |row| && Strict(row)
    ensures RowWeight(p, lo, lo + m, j) == Kept(row[..m], j)
    decreases m
  {
    if m > 0 {
      RowWeightIs(p, lo, row, m - 1, j);
      var e := row[m - 1];
      assert row[..m] == row[..m - 1] + [e];
      KeptAppend(row[..m - 1], e, j);
      if !HasColumn(row[..m - 1], j) {
        NoColumn(row[..m - 1], j);
      }
    }
  }

  lemma WeightOfRow(p: Problem, i: nat, row: seq<Entry>, j: nat)
    requires p.Valid() && i < p.n && Strict(row) && RowAt(p, p.rowPtr[i], row)
    requires p.rowPtr[i + 1] == p.rowPtr[i] + |row|
    ensures p.Weight(i, j) == Kept(row, j)
  {
    RowWeightIs(p, p.rowPtr[i], row, |row|, j);
    assert row[..|row|] == row;
  }

  lemma RowLies(refSpin: seq<int>, h: seq<real>, sorted: seq<seq<Entry>>, alpha: real, i: nat)
    requires i < |sorted|
    ensures var p := Assembled(refSpin, h, sorted, alpha);
            |p.rowPtr| == |sorted| + 1 && p.rowPtr[i + 1] == p.rowPtr[i] + |Dedup(sorted[i])|
            && RowAt(p, p.rowPtr[i], Dedup(sorted[i]))
  {
    FlatRow(Deduped(sorted), i);
  }

  /** The built problem couples `i` to `j` by the first weight that row `i` of the sort has for `j`. */
  lemma WeightIsKept(n: nat, refSpin: seq<int>, h: seq<real>, draws: seq<Draw>, sorted: seq<seq<Entry>>, alpha: real,
                     i: nat, j: nat)
    requires SitesOk(n, refSpin, h) && DrawsOk(n, draws) && MayYield(n, draws, sorted) && i < n
    ensures var p := Assembled(refSpin, h, sorted, alpha);
            p.Valid() && p.Weight(i, j) == Kept(sorted[i], j)
  {
    var p, row := Assembled(refSpin, h, sorted, alpha), Dedup(sorted[i]);
    AssembledValid(n, refSpin, h, draws, sorted, alpha);
    RowLies(refSpin, h, sorted, alpha, i);
    DedupStrict(sorted[i]);
    DedupKeeps(sorted[i], j);
    assert row[..|row|] == row;
    WeightOfRow(p, i, row, j);
  }

  // ---- When the matrix is symmetric -----------------------------------------

  predicate SamePair(d: Draw, e: Draw) {
    (d.site == e.site && d.other == e.other) || (d.site == e.other && d.other == e.site)
  }

  /** Draws of one pair carry one weight; so they do if no pair is drawn twice. */
  ghost predicate Agree(draws: seq<Draw>) {
    forall a, b :: 0 <= a < |draws| && 0 <= b < |draws| && SamePair(draws[a], draws[b])
                   ==> draws[a].weight == draws[b].weight
  }

  /** The weight a sorted row keeps for a column it has is that of some draw of the pair. */
  lemma {:induction false} KeptIsIn(ys: seq<Entry>, j: nat) returns (e: nat)
    requires HasColumn(ys, j)
    ensures e < |ys| && ys[e] == (j, Kept(ys, j))
  {
    if ys[0].0 == j {
      e := 0;
    } else {
      var k :| 0 <= k < |ys| && ys[k].0 == j;
      assert ys[1..][k - 1].0 == j;
      var later := KeptIsIn(ys[1..], j);
      e := later + 1;
    }
  }

  /** Row `j` has an entry for every draw of its pair with `i`. */
  lemma EntryOf(draws: seq<Draw>, j: nat, ys: seq<Entry>, i: nat, w: real, d: nat)
    requires UnstableSort(Pushes(draws, j), ys) && d < |draws| && Pairs(draws[d], j, i, w)
    ensures (i, w) in ys && HasColumn(ys, i)
  {
    PushedIff(draws, j, i, w);
    assert (i, w) in multiset(Pushes(draws, j));
    assert (i, w) in multiset(ys);
    var k :| 0 <= k < |ys| && ys[k] == (i, w);
  }

  lemma KeptAlike(n: nat, draws: seq<Draw>, sorted: seq<seq<Entry>>, i: nat, j: nat)
    requires Agree(draws) && MayYield(n, draws, sorted) && i < n && j < n && HasColumn(sorted[i], j)
    ensures HasColumn(sorted[j], i) && Kept(sorted[i], j) == Kept(sorted[j], i)
  {
    var e := KeptIsIn(sorted[i], j);
    var d := DrawnFor(draws, i, sorted[i], e);
    EntryOf(draws, j, sorted[j], i, Kept(sorted[i], j), d);
    var e' := KeptIsIn(sorted[j], i);
    var d' := DrawnFor(draws, j, sorted[j], e');
    assert SamePair(draws[d], draws[d']);
  }

  lemma NoLoop(n: nat, draws: seq<Draw>, sorted: seq<seq<Entry>>, i: nat)
    requires DrawsOk(n, draws) && MayYield(n, draws, sorted) && i < n
    ensures Kept(sorted[i], i) == 0.0
  {
    if HasColumn(sorted[i], i) {
      var e := KeptIsIn(sorted[i], i);
      var d := DrawnFor(draws, i, sorted[i], e);
      assert false;
    }
    NoColumn(sorted[i], i);
  }

  /** If draws of one pair carry one weight, every outcome of the sort gives a symmetric matrix. */
  lemma AgreeingIsSymmetric(
    n: nat, refSpin: seq<int>, h: seq<real>, draws: seq<Draw>, sorted: seq<seq<Entry>>, alpha: real)
    requires SitesOk(n, refSpin, h) && DrawsOk(n, draws) && MayYield(n, draws, sorted) && Agree(draws)
    ensures Assembled(refSpin, h, sorted, alpha).Valid() && Assembled(refSpin, h, sorted, alpha).Symmetric()
  {
    var p := Assembled(refSpin, h, sorted, alpha);
    AssembledValid(n, refSpin, h, draws, sorted, alpha);
    forall i, j | 0 <= i < n && 0 <= j < n
      ensures p.Weight(i, j) == p.Weight(j, i) && p.Weight(i, i) == 0.0
    {
      WeightIsKept(n, refSpin, h, draws, sorted, alpha, i, j);
      WeightIsKept(n, refSpin, h, draws, sorted, alpha, j, i);
      WeightIsKept(n, refSpin, h, draws, sorted, alpha, i, i);
      NoLoop(n, draws, sorted, i);
      if HasColumn(sorted[i], j) {
        KeptAlike(n, draws, sorted, i, j);
      } else if HasColumn(sorted[j], i) {
        KeptAlike(n, draws, sorted, j, i);
      } else {
        NoColumn(sorted[i], j);
        NoColumn(sorted[j], i);
      }
    }
  }

  // ---- When it may not be ---------------------------------------------------

  predicate Before(a: Entry, b: Entry) {
    a.0 < b.0
  }

  lemma BeforeIsWeakOrder()
    ensures StableSort.WeakOrder(Before)
  {
    forall a: Entry, b: Entry, c: Entry
      ensures StableSort.ChainsAt(Before, a, b, c)
    {
    }
  }

  lemma {:induction false} KeptIsFirstTied(ys: seq<Entry>, e: Entry)
    requires StableSort.Tied(Before, ys, e) != []
    ensures Kept(ys, e.0) == StableSort.Tied(Before, ys, e)[0].1
  {
    if ys != [] && ys[0].0 != e.0 {
      KeptIsFirstTied(ys[1..], e);
    }
  }

  lemma SortIsUnstableSort(xs: seq<Entry>)
    ensures UnstableSort(xs, StableSort.Sort(Before, xs))
  {
    BeforeIsWeakOrder();
    StableSort.SortOrdered(Before, xs);
    var ys := StableSort.Sort(Before, xs);
    forall a, b | 0 <= a < b < |ys|
      ensures ys[a].0 <= ys[b].0
    {
      assert !Before(ys[b], ys[a]);
    }
  }

  /** Any entry of a row may come out first of its column. */
  lemma SomeSortKeeps(xs: seq<Entry>, e: Entry) returns (ys: seq<Entry>)
    requires e in xs
    ensures UnstableSort(xs, ys) && Kept(ys, e.0) == e.1
  {
    var k :| 0 <= k < |xs| && xs[k] == e;
    var rest := xs[..k] + xs[k + 1..];
    var moved := [e] + rest;
    assert xs == xs[..k] + [e] + xs[k + 1..];
    assert multiset(moved) == multiset(xs);
    ys := StableSort.Sort(Before, moved);
    SortIsUnstableSort(moved);
    BeforeIsWeakOrder();
    StableSort.SortKeepsTies(Before, moved, e);
    StableSort.TiedCons(Before, e, rest, e);
    KeptIsFirstTied(ys, e);
  }

  /** These two rows, and any outcome for the others. */
  lemma OutcomeWith(n: nat, draws: seq<Draw>, i: nat, rowI: seq<Entry>, j: nat, rowJ: seq<Entry>)
    returns (sorted: seq<seq<Entry>>)
    requires i < n && j < n && i != j
    requires UnstableSort(Pushes(draws, i), rowI) && UnstableSort(Pushes(draws, j), rowJ)
    ensures MayYield(n, draws, sorted) && sorted[i] == rowI && sorted[j] == rowJ
  {
    sorted := seq(n, r requires 0 <= r < n =>
      if r == i then rowI else if r == j then rowJ else StableSort.Sort(Before, Pushes(draws, r)));
    forall r | 0 <= r < n
      ensures UnstableSort(Pushes(draws, r), sorted[r])
    {
      SortIsUnstableSort(Pushes(draws, r));
    }
  }

  lemma PushedBy(draws: seq<Draw>, d: nat, i: nat, j: nat)
    requires d < |draws| && Pairs(draws[d], i, j, draws[d].weight)
    ensures (j, draws[d].weight) in Pushes(draws, i)
  {
    PushedIff(draws, i, j, draws[d].weight);
  }

  /** Outcomes of the sort in which the two rows of a pair keep the weights of two different draws. */
  lemma OutcomeFor(n: nat, draws: seq<Draw>, a: nat, b: nat) returns (sorted: seq<seq<Entry>>)
    requires DrawsOk(n, draws) && a < |draws| && b < |draws| && SamePair(draws[a], draws[b])
    ensures MayYield(n, draws, sorted)
    ensures Kept(sorted[draws[a].site], draws[a].other) == draws[a].weight
    ensures Kept(sorted[draws[a].other], draws[a].site) == draws[b].weight
  {
    var i, j := draws[a].site, draws[a].other;
    PushedBy(draws, a, i, j);
    PushedBy(draws, b, j, i);
    var rowI := SomeSortKeeps(Pushes(draws, i), (j, draws[a].weight));
    var rowJ := SomeSortKeeps(Pushes(draws, j), (i, draws[b].weight));
    sorted := OutcomeWith(n, draws, i, rowI, j, rowJ);
  }

  /**
   If one pair is drawn twice with different weights, then, whatever the biases
   and the reference spins, the sort may come out such that flipping one of its
   sites spoils accurate fields from every state.
   */
  lemma TwiceDrawnBreaksCache(
    n: nat, refSpin: seq<int>, h: seq<real>, draws: seq<Draw>, alpha: real, a: nat, b: nat)
    returns (sorted: seq<seq<Entry>>)
    requires SitesOk(n, refSpin, h) && DrawsOk(n, draws) && a < |draws| && b < |draws|
    requires SamePair(draws[a], draws[b]) && draws[a].weight != draws[b].weight
    ensures MayYield(n, draws, sorted) && Assembled(refSpin, h, sorted, alpha).Valid()
    ensures SpoiledBy(Assembled(refSpin, h, sorted, alpha), draws[a].site)
  {
    sorted := OutcomeFor(n, draws, a, b);
    var p, i, j := Assembled(refSpin, h, sorted, alpha), draws[a].site, draws[a].other;
    WeightIsKept(n, refSpin, h, draws, sorted, alpha, i, j);
    WeightIsKept(n, refSpin, h, draws, sorted, alpha, j, i);
    assert p.Weight(i, j) != p.Weight(j, i);
    AsymmetrySpoils(p, i);
  }

  /** Whatever the spins, flipping site `i` turns accurate fields into inaccurate ones. */
  ghost predicate SpoiledBy(p: Problem, i: nat)
    requires p.Valid()
  {
    i < p.n &&
    forall s: seq<int>, fields: seq<real>, updated: seq<real> |
      Spins(p, s) && FieldsAccurate(p, s, fields) && Pushed(p, i, s[i], fields, updated) ::
      !FieldsAccurate(p, Flipped(s, i), updated)
  }

  lemma AsymmetrySpoils(p: Problem, i: nat)
    requires p.Valid() && i < p.n && !p.SymmetricAt(i)
    ensures SpoiledBy(p, i)
  {
    forall s: seq<int>, fields: seq<real>, updated: seq<real> |
      Spins(p, s) && FieldsAccurate(p, s, fields) && Pushed(p, i, s[i], fields, updated)
      ensures !FieldsAccurate(p, Flipped(s, i), updated)
    {
      FieldUpdateIff(p, s, i, fields, updated);
    }
  }

  /** Whatever the sort makes of the rows, the matrix is symmetric with an empty diagonal. */
  ghost predicate AlwaysSymmetric(n: nat, refSpin: seq<int>, h: seq<real>, draws: seq<Draw>, alpha: real)
    requires SitesOk(n, refSpin, h) && DrawsOk(n, draws)
  {
    forall sorted: seq<seq<Entry>> :: MayYield(n, draws, sorted) ==>
      Assembled(refSpin, h, sorted, alpha).Valid() && Assembled(refSpin, h, sorted, alpha).Symmetric()
  }

  /** The matrix is sure to be symmetric exactly when draws of one pair carry one weight. */
  lemma SymmetricIff(n: nat, refSpin: seq<int>, h: seq<real>, draws: seq<Draw>, alpha: real)
    requires SitesOk(n, refSpin, h) && DrawsOk(n, draws)
    ensures AlwaysSymmetric(n, refSpin, h, draws, alpha) <==> Agree(draws)
  {
    if Agree(draws) {
      forall sorted: seq<seq<Entry>> | MayYield(n, draws, sorted)
        ensures Assembled(refSpin, h, sorted, alpha).Valid() && Assembled(refSpin, h, sorted, alpha).Symmetric()
      {
        AgreeingIsSymmetric(n, refSpin, h, draws, sorted, alpha);
      }
    } else {
      var a, b :| 0 <= a < |draws| && 0 <= b < |draws| && SamePair(draws[a], draws[b])
                  && draws[a].weight != draws[b].weight;
      var sorted := OutcomeFor(n, draws, a, b);
      var p, i, j := Assembled(refSpin, h, sorted, alpha), draws[a].site, draws[a].other;
      WeightIsKept(n, refSpin, h, draws, sorted, alpha, i, j);
      WeightIsKept(n, refSpin, h, draws, sorted, alpha, j, i);
      assert !p.SymmetricAt(i);
    }
  }

  // ---- The builder ----------------------------------------------------------

  lemma {:induction false} DrawsAreOk(n: nat, random: seq<seq<Entry>>)
    requires RandomOk(n, random)
    ensures DrawsOk(n, Draws(n, random))
    decreases |random|
  {
    if random != [] {
      DrawsAreOk(n, random[..|random| - 1]);
    }
  }

  lemma EntriesAppend(es: seq<Entry>, e: Entry)
    ensures Columns(es + [e]) == Columns(es) + [e.0] && Weights(es + [e]) == Weights(es) + [e.1]
  {
  }

  /** The loop over the rows. */
  method Compress(rows: seq<seq<Entry>>) returns (rowPtr: seq<nat>, colIdx: seq<nat>, w: seq<real>)
    ensures rowPtr == Starts(rows) && colIdx == Columns(Flat(rows)) && w == Weights(Flat(rows))
  {
    rowPtr, colIdx, w := [0], [], [];
    for i := 0 to |rows|
      invariant |rowPtr| == i + 1 && rowPtr == Starts(rows)[..i + 1]
      invariant colIdx == Columns(Flat(rows[..i])) && w == Weights(Flat(rows[..i]))
    {
      ghost var before := Flat(rows[..i]);
      assert rows[..i + 1][..i] == rows[..i];
      assert before + rows[i][..0] == before;
      for k := 0 to |rows[i]|
        invariant colIdx == Columns(before + rows[i][..k]) && w == Weights(before + rows[i][..k])
      {
        EntriesAppend(before + rows[i][..k], rows[i][k]);
        assert before + rows[i][..k + 1] == before + rows[i][..k] + [rows[i][k]];
        colIdx := colIdx + [rows[i][k].0];
        w := w + [rows[i][k].1];
      }
      assert before + rows[i][..|rows[i]|] == Flat(rows[..i + 1]);
      rowPtr := rowPtr + [|colIdx|];
    }
    assert rows[..|rows|] == rows && Starts(rows)[..|rows| + 1] == Starts(rows);
  }

  /** An unstable sort: what it makes of a row may depend on the row's number. */
  ghost predicate Unstable(sort: (nat, seq<Entry>) -> seq<Entry>) {
    forall i: nat, xs: seq<Entry> :: UnstableSort(xs, sort(i, xs))
  }

  function Outcome(n: nat, draws: seq<Draw>, sort: (nat, seq<Entry>) -> seq<Entry>): seq<seq<Entry>> {
    seq(n, i requires 0 <= i < n => sort(i, Pushes(draws, i)))
  }

  /** `build_problem`, once the sites and the random numbers are drawn. */
  method BuildProblem(n: nat, refSpin: seq<int>, h: seq<real>, random: seq<seq<Entry>>,
                      sort: (nat, seq<Entry>) -> seq<Entry>, alpha: real)
    returns (p: Problem)
    requires SitesOk(n, refSpin, h) && RandomOk(n, random) && |random| == n && Unstable(sort)
    ensures p == Assembled(refSpin, h, Outcome(n, Draws(n, random), sort), alpha) && p.Valid()
    ensures Agree(Draws(n, random)) ==> p.Symmetric()
  {
    var nbrs := Neighbours(n, random);
    var rows := seq(n, i requires 0 <= i < n => Dedup(sort(i, nbrs[i])));
    ghost var draws, sorted := Draws(n, random), Outcome(n, Draws(n, random), sort);
    assert rows == Deduped(sorted);
    var rowPtr, colIdx, w := Compress(rows);
    p := Problem(n, refSpin, h, rowPtr, colIdx, w, alpha);
    DrawsAreOk(n, random);
    assert MayYield(n, draws, sorted);
    AssembledValid(n, refSpin, h, draws, sorted, alpha);
    if Agree(draws) {
      AgreeingIsSymmetric(n, refSpin, h, draws, sorted, alpha);
    }
  }

  /** A site that draws itself is paired with the next one, the last site with the first. */
  lemma OtherIs(n: nat, i: nat, j: nat)
    requires n >= 2 && i < n && j < n
    ensures j != i ==> Other(n, i, j) == j
    ensures j == i < n - 1 ==> Other(n, i, j) == i + 1
    ensures j == i == n - 1 ==> Other(n, i, j) == 0
  {
  }
}
