/**
 The sliding-window median/MAD detector of src/blockchain/raman_anomaly.rs, over
 reals. Its even-length median adds two 64-bit words, and that sum may wrap.
 */
module AnomalyDetector {
  import opened ByteCodec
  import opened RealTools
  import opened SortedReals
  import PacketRing

  const WINDOW: nat := 128
  const WARM_UP: nat := 8
  const Z_THRESHOLD: real := 3.0

  datatype Score = Finite(z: real) | Infinite

  /** Half of a 64-bit sum of two samples. */
  function HalfSum(a: real, b: real): real {
    var sum := a + b;
    if sum < 18446744073709551616.0 then sum / 2.0 else (sum - 18446744073709551616.0) / 2.0
  }

  function Median(sorted: seq<real>): real
    requires |sorted| > 0
  {
    var k := |sorted| / 2;
    if |sorted| % 2 == 1 then sorted[k] else HalfSum(sorted[k - 1], sorted[k])
  }

  function Deviations(sorted: seq<real>, median: real): (r: seq<real>)
    ensures |r| == |sorted|
  {
    seq(|sorted|, i requires 0 <= i < |sorted| => Abs(sorted[i] - median))
  }

  function Mid(sorted: seq<real>): real
    requires |sorted| > 0
  {
    var k := |sorted| / 2;
    if |sorted| % 2 == 1 then sorted[k] else (sorted[k - 1] + sorted[k]) / 2.0
  }

  /** The score of `sample` against a window of samples in any order. */
  function Judge(window: seq<real>, sample: real): Score {
    if |window| < WARM_UP then Finite(0.0)
    else Grade(sample, Median(Sort(window)), RobustStd(Sort(window)))
  }

  /** The median distance from the median, scaled to a standard deviation. */
  function RobustStd(sorted: seq<real>): real
    requires |sorted| > 0
  {
    Mid(Sort(Deviations(sorted, Median(sorted)))) * 1.4826
  }

  /** How far a sample lies from the median, in robust standard deviations. */
  function Grade(sample: real, median: real, madStd: real): Score {
    if madStd < 1.0 then
      if sample == median then Finite(0.0) else Infinite
    else Finite((sample - median) / madStd)
  }

  predicate Flagged(score: Score) {
    score.Infinite? || Abs(score.z) > Z_THRESHOLD
  }

  function Reals(s: seq<uint64>): (r: seq<real>)
    ensures |r| == |s| && forall i :: 0 <= i < |s| ==> r[i] == s[i] as real
  {
    seq(|s|, i requires 0 <= i < |s| => s[i] as real)
  }

  function LastOf(history: seq<uint64>): seq<uint64> {
    if |history| <= WINDOW then history else history[|history| - WINDOW..]
  }

  /** The first `len` cells hold the last samples, rotated to start at `pos` once full. */
  ghost predicate Holds(ring: seq<uint64>, len: nat, pos: nat, history: seq<uint64>) {
    && |ring| == WINDOW && len == |LastOf(history)| && pos < WINDOW
    && (len < WINDOW ==> pos == len && ring[..len] == history)
    && (len == WINDOW ==> PacketRing.FromNext(ring, pos) == LastOf(history))
  }

  lemma RecordHolds(ring: seq<uint64>, len: nat, pos: nat, history: seq<uint64>, sample: uint64)
    requires Holds(ring, len, pos, history)
    ensures Holds(ring[pos := sample], if len < WINDOW then len + 1 else len,
                  PacketRing.Following(pos, WINDOW), history + [sample])
  {
    var after := ring[pos := sample];
    if len < WINDOW {
      assert after[..len + 1] == ring[..len] + [sample];
      if len + 1 == WINDOW {
        assert PacketRing.FromNext(after, 0) == after[..len + 1];
      }
    } else {
      PacketRing.RotateOne(ring, pos, sample);
      LastOfAppend(history, sample);
    }
  }

  class Detector {
    const ring: array<uint64>
    var len: nat
    var pos: nat
    ghost var history: seq<uint64>

    ghost predicate Valid()
      reads this, ring
    {
      ring.Length == WINDOW && Holds(ring[..], len, pos, history)
    }

    constructor ()
      ensures Valid() && history == [] && fresh(ring)
    {
      ring := new uint64[WINDOW](_ => 0);
      len := 0;
      pos := 0;
      history := [];
      new;
      assert Holds(ring[..], 0, 0, []);
    }

    method Update(sample: uint64) returns (score: Score, anomaly: bool)
      requires Valid()
      modifies this, ring
      ensures Valid() && history == old(history) + [sample]
      ensures score == Judge(Reals(LastOf(history)), sample as real)
      ensures anomaly == Flagged(score)
    {
      Record(sample);
      WindowMultiset();
      OrderDoesNotMatter(Reals(ring[..len]), Reals(LastOf(history)), sample as real);
      score := ScoreWindow(Reals(ring[..len]), sample as real);
      anomaly := score.Infinite? || Abs(score.z) > Z_THRESHOLD;
    }

    /** The ring half of `update`. */
    method Record(sample: uint64)
      requires Valid()
      modifies this, ring
      ensures Valid() && history == old(history) + [sample]
    {
      RecordHolds(ring[..], len, pos, history, sample);
      ghost var after := ring[..][pos := sample];
      ring[pos] := sample;
      assert ring[..] == after;
      pos := PacketRing.Following(pos, WINDOW);
      if len < WINDOW {
        len := len + 1;
      }
      history := history + [sample];
    }

    lemma WindowMultiset()
      requires Valid()
      ensures len == |LastOf(history)|
      ensures multiset(Reals(ring[..len])) == multiset(Reals(LastOf(history)))
    {
      if len == WINDOW {
        RotationMultiset(ring[..], pos);
        assert ring[..len] == ring[..];
      }
    }
  }

  lemma LastOfAppend(history: seq<uint64>, sample: uint64)
    requires |history| >= WINDOW
    ensures LastOf(history + [sample]) == LastOf(history)[1..] + [sample]
  {
  }

  /** The scoring half of `update`, on a copy of the window. */
  method ScoreWindow(window: seq<real>, sample: real) returns (score: Score)
    ensures score == Judge(window, sample)
  {
    var len := |window|;
    if len < WARM_UP {
      return Finite(0.0);
    }
    var sorted := Sort(window);
    var median := Median(sorted);
    var absDevs := new real[len];
    for i := 0 to len
      invariant forall j :: 0 <= j < i ==> absDevs[j] == Abs(sorted[j] - median)
    {
      absDevs[i] := Abs(sorted[i] - median);
    }
    assert absDevs[..] == Deviations(sorted, median);
    var mad := Mid(Sort(absDevs[..]));
    var madStd := mad * 1.4826;
    if madStd < 1.0 {
      score := if sample == median then Finite(0.0) else Infinite;
    } else {
      score := Finite((sample - median) / madStd);
    }
  }

  lemma RotationMultiset(s: seq<uint64>, p: nat)
    requires p <= |s|
    ensures multiset(Reals(s)) == multiset(Reals(PacketRing.FromNext(s, p)))
  {
    assert Reals(s) == Reals(s)[..p] + Reals(s)[p..];
    assert Reals(PacketRing.FromNext(s, p)) == Reals(s)[p..] + Reals(s)[..p];
  }

  // ---- Laws of the score ----------------------------------------------------

  /** The score depends on which samples are in the window, not on when they came. */
  lemma OrderDoesNotMatter(a: seq<real>, b: seq<real>, sample: real)
    requires multiset(a) == multiset(b)
    ensures Judge(a, sample) == Judge(b, sample)
  {
    assert |a| == |multiset(a)| == |multiset(b)| == |b|;
    SortIgnoresOrder(a, b);
  }

  const TWO_64: real := 18446744073709551616.0

  /** The even median's 64-bit sum does not wrap. */
  predicate SumFits(sorted: seq<real>) {
    |sorted| == 0 || |sorted| % 2 == 1 || sorted[|sorted| / 2 - 1] + sorted[|sorted| / 2] < 18446744073709551616.0
  }

  /** The median lies between the two middle samples exactly when their sum does not wrap. */
  lemma MedianBetweenIff(sorted: seq<real>)
    requires |sorted| > 0 && |sorted| % 2 == 0 && Ascending(sorted)
    requires forall i :: 0 <= i < |sorted| ==> 0.0 <= sorted[i] < TWO_64
    ensures sorted[|sorted| / 2 - 1] <= Median(sorted) <= sorted[|sorted| / 2] <==> SumFits(sorted)
  {
    var k := |sorted| / 2;
    assert sorted[k - 1] <= sorted[k] < TWO_64;
  }

  lemma MedianShift(sorted: seq<real>, c: real)
    requires |sorted| > 0 && SumFits(sorted) && SumFits(Shift(sorted, c))
    ensures Median(Shift(sorted, c)) == Median(sorted) + c
  {
  }

  lemma GradeShift(sample: real, median: real, madStd: real, c: real)
    ensures Grade(sample + c, median + c, madStd) == Grade(sample, median, madStd)
  {
    assert (sample + c) - (median + c) == sample - median;
  }

  lemma RobustStdShift(sorted: seq<real>, c: real)
    requires |sorted| > 0 && SumFits(sorted) && SumFits(Shift(sorted, c))
    ensures RobustStd(Shift(sorted, c)) == RobustStd(sorted)
  {
    MedianShift(sorted, c);
    assert Deviations(Shift(sorted, c), Median(sorted) + c) == Deviations(sorted, Median(sorted));
  }

  /** Raising every sample by the same amount changes no score, as long as no median's sum wraps. */
  lemma ShiftInvariant(window: seq<real>, sample: real, c: real)
    requires SumFits(Sort(window)) && SumFits(Sort(Shift(window, c)))
    ensures Judge(Shift(window, c), sample + c) == Judge(window, sample)
  {
    if |window| >= WARM_UP {
      SortShift(window, c);
      MedianShift(Sort(window), c);
      RobustStdShift(Sort(window), c);
      GradeShift(sample, Median(Sort(window)), RobustStd(Sort(window)), c);
    }
  }

  lemma ConstantMedian(sorted: seq<real>, v: real)
    requires |sorted| > 0 && 0.0 <= v < TWO_64 && forall i :: 0 <= i < |sorted| ==> sorted[i] == v
    ensures Median(sorted) == if |sorted| % 2 == 1 || v < TWO_64 / 2.0 then v else v - TWO_64 / 2.0
  {
  }

  lemma ConstantRobustStd(sorted: seq<real>, v: real)
    requires |sorted| > 0 && 0.0 <= v < TWO_64 && forall i :: 0 <= i < |sorted| ==> sorted[i] == v
    ensures RobustStd(sorted) == (v - Median(sorted)) * 1.4826
  {
    ConstantMedian(sorted, v);
    var d := v - Median(sorted);
    SortConstant(Deviations(sorted, Median(sorted)), d);
  }

  /**
   A window of one repeated value never raises an alarm for that value, and
   scores it zero exactly when the window is warming up or odd, or the value is
   below 2^63 so that the even median's sum does not wrap.
   */
  lemma ConstantWindowIsQuiet(window: seq<real>, v: real)
    requires 0.0 <= v < TWO_64 && forall i :: 0 <= i < |window| ==> window[i] == v
    ensures !Flagged(Judge(window, v))
    ensures Judge(window, v) == Finite(0.0) <==> |window| < WARM_UP || |window| % 2 == 1 || v < TWO_64 / 2.0
  {
    if |window| >= WARM_UP {
      var sorted := Sort(window);
      SortConstant(window, v);
      ConstantMedian(sorted, v);
      ConstantRobustStd(sorted, v);
    }
  }

  lemma SortConstant(s: seq<real>, v: real)
    requires forall i :: 0 <= i < |s| ==> s[i] == v
    ensures forall i :: 0 <= i < |s| ==> Sort(s)[i] == v
  {
    SortSorts(s);
    forall i | 0 <= i < |s|
      ensures Sort(s)[i] == v
    {
      assert Sort(s)[i] in multiset(s);
    }
  }

  // ---- The score by rank ----------------------------------------------------

  /** The two values in the middle, the same one if their number is odd. */
  predicate Middle(s: seq<real>, low: real, high: real) {
    |s| > 0 && Ranked(s, (|s| - 1) / 2, low) && Ranked(s, |s| / 2, high)
  }

  /** How far each sample lies from the median, on either side. */
  predicate DistancesFrom(distances: seq<real>, window: seq<real>, median: real) {
    |distances| == |window|
    && forall i :: 0 <= i < |window| ==>
         distances[i] == if window[i] < median then median - window[i] else window[i] - median
  }

  lemma DeviationsOfSort(s: seq<real>, median: real)
    ensures multiset(Deviations(Sort(s), median)) == multiset(Deviations(s, median))
  {
    var f := (x: real) => Abs(x - median);
    MappedSort(f, s);
    assert Deviations(Sort(s), median) == Mapped(f, Sort(s)) && Deviations(s, median) == Mapped(f, s);
  }

  lemma MiddleStands(s: seq<real>, low: real, high: real)
    requires Middle(s, low, high)
    ensures Sort(s)[(|s| - 1) / 2] == low && Sort(s)[|s| / 2] == high
  {
    RankedIff(s, (|s| - 1) / 2, low);
    RankedIff(s, |s| / 2, high);
  }

  /** Where the middle of a sorted window stands; half a 64-bit sum loses the bit that does not fit. */
  lemma MiddleOf(sorted: seq<real>, low: real, high: real)
    requires |sorted| > 0 && sorted[(|sorted| - 1) / 2] == low && sorted[|sorted| / 2] == high
    ensures Mid(sorted) == if |sorted| % 2 == 1 then high else (low + high) / 2.0
    ensures Median(sorted) == if |sorted| % 2 == 1 then high
                              else if low + high < 18446744073709551616.0 then (low + high) / 2.0
                              else (low + high - 18446744073709551616.0) / 2.0
  {
  }

  lemma SortedDistances(window: seq<real>, median: real, distances: seq<real>)
    requires DistancesFrom(distances, window, median)
    ensures Sort(Deviations(Sort(window), median)) == Sort(distances)
  {
    assert Deviations(window, median) == distances;
    DeviationsOfSort(window, median);
    SortIgnoresOrder(Deviations(Sort(window), median), distances);
  }

  lemma SpreadIs(window: seq<real>, median: real, distances: seq<real>, near: real, far: real)
    requires window != [] && Median(Sort(window)) == median
    requires DistancesFrom(distances, window, median) && Middle(distances, near, far)
    ensures RobustStd(Sort(window)) == (if |window| % 2 == 1 then far else (near + far) / 2.0) * 1.4826
  {
    SortedDistances(window, median, distances);
    MiddleStands(distances, near, far);
    MiddleOf(Sort(distances), near, far);
  }

  /** Being more than three deviations away, without the division. */
  lemma ThreeAway(difference: real, std: real)
    requires std >= 1.0
    ensures Abs(difference / std) > 3.0 <==> difference > 3.0 * std || -difference > 3.0 * std
  {
    var z := difference / std;
    assert z * std == difference;
    Scales(z, 3.0, std);
    Scales(-z, 3.0, std);
    assert (-z) * std == -difference;
    assert Abs(z) > 3.0 <==> z > 3.0 || -z > 3.0;
  }

  lemma Scales(a: real, b: real, c: real)
    requires c > 0.0
    ensures a > b <==> a * c > b * c
  {
    assert (a - b) * c == a * c - b * c && (b - a) * c == b * c - a * c;
    if a > b {
      Positive(a - b, c);
    } else if a < b {
      Positive(b - a, c);
    }
  }

  lemma Positive(x: real, c: real)
    requires x > 0.0 && c > 0.0
    ensures x * c > 0.0
  {
  }

  lemma GradeIs(sample: real, median: real, std: real)
    ensures var score := Grade(sample, median, std);
      && (std >= 1.0 ==> score == Finite((sample - median) / std))
      && (std < 1.0 ==> score == if sample == median then Finite(0.0) else Infinite)
      && (Flagged(score) <==> if std < 1.0 then sample != median
                              else sample - median > 3.0 * std || median - sample > 3.0 * std)
  {
    if std >= 1.0 {
      ThreeAway(sample - median, std);
    }
  }

  /**
   From eight samples on the score is told by ranks alone: the median is the
   middle sample, or half the 64-bit sum of the two middle ones; the spread is
   1.4826 times the middle distance from it. A sample raises an alarm exactly if
   it lies more than three spreads from the median or, with a spread below one,
   is not the median.
   */
  lemma ScoreIs(window: seq<real>, sample: real, low: real, high: real, median: real,
                distances: seq<real>, near: real, far: real)
    requires |window| >= 8 && Middle(window, low, high)
    requires median == if |window| % 2 == 1 then high
                       else if low + high < 18446744073709551616.0 then (low + high) / 2.0
                       else (low + high - 18446744073709551616.0) / 2.0
    requires DistancesFrom(distances, window, median) && Middle(distances, near, far)
    ensures var score, std := Judge(window, sample), (if |window| % 2 == 1 then far else (near + far) / 2.0) * 1.4826;
      && (std >= 1.0 ==> score == Finite((sample - median) / std))
      && (std < 1.0 ==> score == if sample == median then Finite(0.0) else Infinite)
      && (Flagged(score) <==> if std < 1.0 then sample != median
                              else sample - median > 3.0 * std || median - sample > 3.0 * std)
  {
    MiddleStands(window, low, high);
    MiddleOf(Sort(window), low, high);
    SpreadIs(window, median, distances, near, far);
    GradeIs(sample, median, RobustStd(Sort(window)));
  }

  /** Before the eighth sample nothing is flagged; the window is the last 128 samples. */
  lemma WarmingUp(history: seq<uint64>, window: seq<real>, sample: real)
    ensures |window| < 8 ==> Judge(window, sample) == Finite(0.0) && !Flagged(Judge(window, sample))
    ensures |history| <= 128 ==> LastOf(history) == history
    ensures |history| > 128 ==>
              |LastOf(history)| == 128
              && forall k :: 0 <= k < 128 ==> LastOf(history)[k] == history[|history| - 128 + k]
  {
  }
}
