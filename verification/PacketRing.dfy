/** The overwrite ring of src/drivers/sx1276.rs (`Sx1276RawPacketRing`). */
module PacketRing {
  import opened ByteCodec

  const U32_MAX: uint32 := 0xFFFF_FFFF

  function Following(at: nat, size: nat): (next: nat)
    requires at < size
    ensures next == if at + 1 == size then 0 else at + 1
  {
    (at + 1) % size
  }

  datatype Content<T> = Content(samples: seq<T>, next: nat, dropped: uint32)

  ghost predicate WellFormed<T>(capacity: nat, c: Content<T>) {
    && |c.samples| <= capacity && c.next <= |c.samples|
    && (capacity > 0 ==> c.next < capacity)
    && (|c.samples| < capacity ==> c.next == 0)
  }

  /** One push. */
  function Step<T>(capacity: nat, c: Content<T>, sample: T): (r: Content<T>)
    requires WellFormed(capacity, c)
    ensures WellFormed(capacity, r)
  {
    if |c.samples| < capacity then c.(samples := c.samples + [sample])
    else if capacity == 0 then c.(dropped := SaturatingSucc(c.dropped))
    else Content(c.samples[c.next := sample], Following(c.next, capacity), SaturatingSucc(c.dropped))
  }

  /** The ring's fields after a run of pushes. */
  function After<T>(capacity: nat, pushes: seq<T>): (c: Content<T>)
    ensures WellFormed(capacity, c)
  {
    if pushes == [] then Content([], 0, 0)
    else Step(capacity, After(capacity, pushes[..|pushes| - 1]), pushes[|pushes| - 1])
  }

  lemma AfterAppend<T>(capacity: nat, pushes: seq<T>, sample: T)
    ensures After(capacity, pushes + [sample]) == Step(capacity, After(capacity, pushes), sample)
  {
    assert (pushes + [sample])[..|pushes|] == pushes;
  }

  class Ring<T> {
    const capacity: nat
    var samples: seq<T>
    var nextOverwrite: nat
    var droppedSamples: uint32
    ghost var pushed: seq<T>

    ghost predicate Valid()
      reads this
    {
      Content(samples, nextOverwrite, droppedSamples) == After(capacity, pushed)
    }

    constructor (capacity: nat)
      ensures Valid() && pushed == [] && this.capacity == capacity
    {
      this.capacity := capacity;
      samples := [];
      nextOverwrite := 0;
      droppedSamples := 0;
      pushed := [];
    }

    method Push(sample: T)
      requires Valid()
      modifies this
      ensures Valid() && pushed == old(pushed) + [sample]
    {
      AfterAppend(capacity, pushed, sample);
      ghost var before := Content(samples, nextOverwrite, droppedSamples);
      assert WellFormed(capacity, before);
      pushed := pushed + [sample];
      assert After(capacity, pushed) == Step(capacity, before, sample);
      if |samples| < capacity {
        samples := samples + [sample];
      } else if capacity == 0 {
        droppedSamples := SaturatingSucc(droppedSamples);
      } else {
        samples := samples[nextOverwrite := sample];
        nextOverwrite := Following(nextOverwrite, capacity);
        droppedSamples := SaturatingSucc(droppedSamples);
      }
    }
  }

  // ---- Whole runs -----------------------------------------------------------

  /** The stored samples read from `next` on, cyclically. */
  function FromNext<T>(samples: seq<T>, next: nat): seq<T>
    requires next <= |samples|
  {
    samples[next..] + samples[..next]
  }

  /** Overwriting the oldest sample and stepping on drops it and appends the new one. */
  lemma RotateOne<T>(samples: seq<T>, at: nat, sample: T)
    requires at < |samples|
    ensures FromNext(samples[at := sample], Following(at, |samples|)) == FromNext(samples, at)[1..] + [sample]
  {
    var after := samples[at := sample];
    if at + 1 == |samples| {
      assert FromNext(after, 0) == after;
    }
  }

  lemma LastOfLonger<T>(pushes: seq<T>, kept: nat, sample: T)
    requires 0 < kept <= |pushes|
    ensures (pushes + [sample])[|pushes| + 1 - kept..] == pushes[|pushes| - kept..][1..] + [sample]
  {
  }

  /** One drop is counted for every push the ring no longer holds, until the counter saturates. */
  lemma {:induction false} DropsCounted<T>(capacity: nat, pushes: seq<T>)
    ensures var c := After(capacity, pushes);
      && |c.samples| == (if |pushes| < capacity then |pushes| else capacity)
      && c.dropped == (if |pushes| - |c.samples| < U32_MAX then |pushes| - |c.samples| else U32_MAX)
    decreases |pushes|
  {
    if pushes != [] {
      DropsCounted(capacity, pushes[..|pushes| - 1]);
    }
  }

  /** One push onto a ring that holds the last pushes keeps it so. */
  lemma PushKeepsOrder<T>(capacity: nat, c: Content<T>, rest: seq<T>, last: T)
    requires |c.samples| == (if |rest| < capacity then |rest| else capacity) && c.next <= |c.samples|
    requires capacity > 0 ==> c.next < capacity
    requires |c.samples| < capacity ==> c.next == 0
    requires FromNext(c.samples, c.next) == rest[|rest| - |c.samples|..]
    ensures |c.samples| < capacity ==> c.samples + [last] == rest + [last]
    ensures |c.samples| == capacity > 0 ==>
              FromNext(c.samples[c.next := last], Following(c.next, capacity))
              == (rest + [last])[|rest| + 1 - capacity..]
  {
    if |c.samples| < capacity {
      assert FromNext(c.samples, 0) == c.samples;
    } else if capacity > 0 {
      RotateOne(c.samples, c.next, last);
      LastOfLonger(rest, capacity, last);
    }
  }

  ghost predicate HoldsLast<T>(capacity: nat, c: Content<T>, pushes: seq<T>) {
    && |c.samples| == (if |pushes| < capacity then |pushes| else capacity) && c.next <= |c.samples|
    && FromNext(c.samples, c.next) == pushes[|pushes| - |c.samples|..]
  }

  lemma PushHoldsLast<T>(capacity: nat, c: Content<T>, rest: seq<T>, last: T)
    requires WellFormed(capacity, c) && HoldsLast(capacity, c, rest)
    ensures HoldsLast(capacity, Step(capacity, c, last), rest + [last])
  {
    PushKeepsOrder(capacity, c, rest, last);
    if |c.samples| < capacity {
      assert FromNext(rest + [last], 0) == (rest + [last])[0..];
    }
  }

  /** After any run of pushes the ring, read from `next`, is exactly the last `capacity` pushes in order. */
  lemma {:induction false} RingIsLastPushes<T>(capacity: nat, pushes: seq<T>)
    ensures HoldsLast(capacity, After(capacity, pushes), pushes)
    decreases |pushes|
  {
    if pushes != [] {
      var rest, last := pushes[..|pushes| - 1], pushes[|pushes| - 1];
      RingIsLastPushes(capacity, rest);
      assert pushes == rest + [last];
      AfterAppend(capacity, rest, last);
      PushHoldsLast(capacity, After(capacity, rest), rest, last);
    }
  }
}
