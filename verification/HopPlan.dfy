/** The LoRa hop plan of src/channel_ensemble.rs (`FullBandHopPlan`). */
module HopPlan {
  import opened ByteCodec

  const NUM_CHANNELS: nat := 125
  const BASE_FREQ_HZ: nat := 863_000_000
  const CHANNEL_STEP_HZ: nat := 56_000


  function Frequency(channel: nat): nat {
    BASE_FREQ_HZ + channel * CHANNEL_STEP_HZ
  }

  /** The 32-bit wrapping generator that drives the shuffle. */
  function NextRandom(rng: uint32): uint32 {
    var product: int := (rng as int) * 0x4C95_7F2D;
    (product + 0xF767_814F) % 0x1_0000_0000
  }

  /** `inverse` says where in `hops` each channel stands. */
  ghost predicate Inverts(hops: seq<nat>, inverse: seq<nat>) {
    && |hops| == |inverse| == NUM_CHANNELS
    && (forall i :: 0 <= i < NUM_CHANNELS ==> hops[i] < NUM_CHANNELS && inverse[hops[i]] == i)
    && (forall c :: 0 <= c < NUM_CHANNELS ==> inverse[c] < NUM_CHANNELS && hops[inverse[c]] == c)
  }

  ghost predicate IsPermutation(hops: seq<nat>) {
    exists inverse: seq<nat> :: Inverts(hops, inverse)
  }

  lemma SwapKeepsPermutation(hops: seq<nat>, i: nat, j: nat)
    requires IsPermutation(hops) && i < NUM_CHANNELS && j < NUM_CHANNELS
    ensures IsPermutation(hops[i := hops[j]][j := hops[i]])
  {
    var inverse: seq<nat> :| Inverts(hops, inverse);
    var after := hops[i := hops[j]][j := hops[i]];
    var inverse' := inverse[hops[i] := j][hops[j] := i];
    assert Inverts(after, inverse');
  }

  /** The shuffle: from slot `i` down, swap each slot with a drawn slot at or below it. */
  function Shuffle(hops: seq<nat>, rng: uint32, i: nat): (r: seq<nat>)
    requires |hops| == NUM_CHANNELS && i < NUM_CHANNELS
    ensures |r| == NUM_CHANNELS
    decreases i
  {
    if i == 0 then hops
    else
      var next := NextRandom(rng);
      var j := (next as int) % (i + 1);
      Shuffle(hops[i := hops[j]][j := hops[i]], next, i - 1)
  }

  /** Whatever the seed draws, the shuffle loses and repeats no channel. */
  lemma {:induction false} ShuffleKeepsPermutation(hops: seq<nat>, rng: uint32, i: nat)
    requires |hops| == NUM_CHANNELS && IsPermutation(hops) && i < NUM_CHANNELS
    ensures IsPermutation(Shuffle(hops, rng, i))
    decreases i
  {
    if i > 0 {
      var next := NextRandom(rng);
      var j := (next as int) % (i + 1);
      SwapKeepsPermutation(hops, i, j);
      ShuffleKeepsPermutation(hops[i := hops[j]][j := hops[i]], next, i - 1);
    }
  }

  /** The hop sequence of a seed. */
  function HopsOf(seed: uint32): (r: seq<nat>)
    ensures |r| == NUM_CHANNELS
  {
    Shuffle(seq(NUM_CHANNELS, i => i), seed, NUM_CHANNELS - 1)
  }

  lemma HopsArePermutation(seed: uint32)
    ensures IsPermutation(HopsOf(seed))
  {
    var identity: seq<nat> := seq(NUM_CHANNELS, i => i);
    assert Inverts(identity, identity);
    ShuffleKeepsPermutation(identity, seed, NUM_CHANNELS - 1);
  }

  /** The position after `k` calls of `next_channel` from position `p`. */
  function Position(p: nat, k: nat): nat {
    if k == 0 then p else (Position(p, k - 1) + 1) % 125
  }

  lemma {:induction false} PositionIs(p: nat, k: nat)
    requires p < NUM_CHANNELS
    ensures Position(p, k) == (p + k) % 125
  {
    if k > 0 {
      PositionIs(p, k - 1);
      ModuloSucc(p + k - 1);
    }
  }

  lemma ModuloSucc(x: nat)
    ensures (x % 125 + 1) % 125 == (x + 1) % 125
  {
    var q := x / 125;
    assert x == 125 * q + x % 125;
    if x % 125 == 124 {
      assert x + 1 == 125 * (q + 1);
    }
  }

  /** The call that reaches position `at`. */
  function CallAt(p: nat, at: nat): nat
    requires p < NUM_CHANNELS && at < NUM_CHANNELS
  {
    if at >= p then at - p else at + NUM_CHANNELS - p
  }

  lemma CallReaches(p: nat, at: nat, k: nat)
    requires p < NUM_CHANNELS && at < NUM_CHANNELS && k < NUM_CHANNELS
    ensures Position(p, k) < NUM_CHANNELS
    ensures Position(p, k) == at <==> k == CallAt(p, at)
  {
    PositionIs(p, k);
    assert (p + k) % 125 == if p + k < 125 then p + k else p + k - 125;
  }

  datatype Channel = Channel(frequencyHz: nat, index: nat)

  class Plan {
    const channels: array<nat>
    const hops: array<nat>
    var current: nat

    ghost predicate Valid()
      reads this, channels, hops
    {
      && channels != hops && channels.Length == hops.Length == NUM_CHANNELS
      && (forall c :: 0 <= c < NUM_CHANNELS ==> channels[c] == Frequency(c))
      && IsPermutation(hops[..])
      && current < NUM_CHANNELS
    }

    /** Fills the channel table, then shuffles the hops in place. */
    constructor (seed: uint32)
      ensures Valid() && current == 0 && fresh(channels) && fresh(hops)
      ensures hops[..] == HopsOf(seed)
    {
      channels := new nat[NUM_CHANNELS](i => Frequency(i));
      hops := new nat[NUM_CHANNELS](i => i);
      current := 0;
      new;
      assert hops[..] == seq(NUM_CHANNELS, i => i);
      var rng := seed;
      var i := NUM_CHANNELS - 1;
      while i >= 1
        invariant 0 <= i < NUM_CHANNELS && current == 0
        invariant Shuffle(hops[..], rng, i) == HopsOf(seed)
        invariant forall c :: 0 <= c < NUM_CHANNELS ==> channels[c] == Frequency(c)
      {
        rng := NextRandom(rng);
        var j := (rng as int) % (i + 1);
        ghost var before := hops[..];
        hops[i], hops[j] := hops[j], hops[i];
        assert hops[..] == before[i := before[j]][j := before[i]];
        i := i - 1;
      }
      HopsArePermutation(seed);
    }

    method NextChannel() returns (channel: Channel)
      requires Valid()
      modifies this
      ensures Valid() && current == Position(old(current), 1)
      ensures channel == Channel(Frequency(hops[old(current)]), hops[old(current)])
    {
      var index := hops[current % 125];
      current := (current + 1) % 125;
      channel := Channel(channels[index], index);
    }
  }

  /** The channel visited by call `k` (from 0) of a run that starts at position `p`. */
  ghost function Visit(hops: seq<nat>, p: nat, k: nat): nat
    requires IsPermutation(hops) && p < NUM_CHANNELS
  {
    PositionIs(p, k);
    hops[Position(p, k)]
  }

  /**
   For any permutation, hence any seed, and from any position, 125 consecutive
   calls visit every channel, and two of them never share a frequency; all
   frequencies lie in the 863-870 MHz band.
   */
  lemma FullSweep(hops: seq<nat>, p: nat, channel: nat)
    requires IsPermutation(hops) && p < NUM_CHANNELS && channel < NUM_CHANNELS
    ensures exists k :: 0 <= k < NUM_CHANNELS && Visit(hops, p, k) == channel
    ensures forall j, k :: 0 <= j < k < NUM_CHANNELS ==>
              Frequency(Visit(hops, p, j)) != Frequency(Visit(hops, p, k))
    ensures 863_000_000 <= Frequency(channel) <= 870_000_000
  {
    var inverse: seq<nat> :| Inverts(hops, inverse);
    var k := CallAt(p, inverse[channel]);
    CallReaches(p, inverse[channel], k);
    assert Visit(hops, p, k) == channel;
    forall j, k | 0 <= j < k < NUM_CHANNELS
      ensures Frequency(Visit(hops, p, j)) != Frequency(Visit(hops, p, k))
    {
      var x, y := Position(p, j), Position(p, k);
      CallReaches(p, 0, j);
      CallReaches(p, 0, k);
      CallReaches(p, x, j);
      CallReaches(p, x, k);
      assert inverse[hops[x]] == x && inverse[hops[y]] == y;
    }
  }

  // ---- Which plan it is -----------------------------------------------------

  /** The channels lie 56 kHz apart, from 863.000 to 869.944 MHz. */
  lemma ChannelsAre(channel: nat)
    requires channel < 125
    ensures Frequency(0) == 863_000_000 && Frequency(124) == 869_944_000
    ensures Frequency(channel + 1) == Frequency(channel) + 56_000
  {
  }

  /**
   The generator is the affine one through these two values: every other value
   follows from the one before it.
   */
  lemma GeneratorIs(rng: uint32)
    ensures NextRandom(0) == 0xF767_814F && NextRandom(1) == 0x43FD_007C
    ensures rng < 0xFFFF_FFFF ==> NextRandom(rng + 1) == (NextRandom(rng) as int + 0x4C95_7F2D) % 0x1_0000_0000
  {
    if rng < 0xFFFF_FFFF {
      var p: int := (rng as int) * 0x4C95_7F2D;
      assert (rng as int + 1) * 0x4C95_7F2D == p + 0x4C95_7F2D;
      AddsModulo(p + 0xF767_814F, 0x4C95_7F2D);
    }
  }

  lemma AddsModulo(x: nat, y: nat)
    ensures (x + y) % 0x1_0000_0000 == (x % 0x1_0000_0000 + y) % 0x1_0000_0000
  {
  }

  /** The shuffle leaves every slot above the ones still to be drawn as it is. */
  lemma {:induction false} ShuffleKeepsAbove(hops: seq<nat>, rng: uint32, i: nat, at: nat)
    requires |hops| == NUM_CHANNELS && i < at < NUM_CHANNELS
    ensures Shuffle(hops, rng, i)[at] == hops[at]
    decreases i
  {
    if i > 0 {
      var next := NextRandom(rng);
      var j := (next as int) % (i + 1);
      ShuffleKeepsAbove(hops[i := hops[j]][j := hops[i]], next, i - 1, at);
    }
  }

  /** Each slot gets what stands in the slot drawn for it, among itself and those below. */
  lemma SlotIsDrawn(hops: seq<nat>, rng: uint32, i: nat)
    requires |hops| == NUM_CHANNELS && 0 < i < NUM_CHANNELS
    ensures Shuffle(hops, rng, i)[i] == hops[(NextRandom(rng) as int) % (i + 1)]
  {
    var next := NextRandom(rng);
    var j := (next as int) % (i + 1);
    ShuffleKeepsAbove(hops[i := hops[j]][j := hops[i]], next, i - 1, i);
  }

  /** The last two hops of a seed: its first draw modulo 125, then its second modulo 124 among what is left. */
  lemma LastHops(seed: uint32)
    ensures var first := NextRandom(seed);
            var second: nat := (NextRandom(first) as int) % 124;
            && HopsOf(seed)[124] == (first as int) % 125
            && HopsOf(seed)[123] == if second == (first as int) % 125 then 124 else second
  {
    var hops: seq<nat> := seq(NUM_CHANNELS, i => i);
    var first := NextRandom(seed);
    var j := (first as int) % 125;
    SlotIsDrawn(hops, seed, 124);
    SlotIsDrawn(hops[124 := hops[j]][j := hops[124]], first, 123);
  }
}
