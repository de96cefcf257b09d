/**
 The packet layer of src/packet.rs: masked frames and the replay window. The
 session's mask and tag functions are parameters.
 */
module ReplayWindow {
  import opened ByteCodec
  import opened Outcome

  const MAX: uint32 := 0xFFFF_FFFF

  datatype PacketError = AuthTagMismatch | ReplayOrStaleNonce | NonceOutOfWindow | ResyncSequenceGap

  /** One session's `frame_mask` and `frame_tag`. */
  datatype Session = Session(mask: uint32 -> bv32, tag: (uint32, bv32) -> bv64)

  datatype Frame = Frame(nonce: uint32, wire: bv32, tag: bv64)

  function Encode(session: Session, payload: bv16, nonce: uint32): Frame {
    var wire := (payload as bv32) ^ session.mask(nonce);
    Frame(nonce, wire, session.tag(nonce, wire))
  }

  function Decode(session: Session, frame: Frame): Result<bv16, PacketError> {
    if frame.tag != session.tag(frame.nonce, frame.wire) then Err(AuthTagMismatch)
    else Ok(((frame.wire ^ session.mask(frame.nonce)) & 0xFFFF) as bv16)
  }

  lemma XorTwice(p: bv32, m: bv32)
    ensures (p ^ m) ^ m == p
  {
  }

  lemma LowHalf(p: bv16)
    ensures ((p as bv32) & 0xFFFF) as bv16 == p
  {
  }

  lemma DecodeUndoesEncode(session: Session, payload: bv16, nonce: uint32)
    ensures Decode(session, Encode(session, payload, nonce)) == Ok(payload)
  {
    XorTwice(payload as bv32, session.mask(nonce));
    LowHalf(payload);
  }

  /** The bound of the window; the 32-bit addition wraps when unchecked. */
  function Limit(expected: uint32, skew: uint32): uint32 {
    (expected + skew) % 0x1_0000_0000
  }

  /** What `accept_frame` answers, as a function of the window. */
  function Judge(expected: uint32, skew: uint32, session: Session, frame: Frame): Result<bv16, PacketError> {
    if frame.nonce < expected then Err(ReplayOrStaleNonce)
    else if frame.nonce > Limit(expected, skew) then Err(NonceOutOfWindow)
    else Decode(session, frame)
  }

  class Window {
    var expectedNonce: uint32
    const maxFutureSkew: uint32

    constructor (expectedNonce: uint32, maxFutureSkew: uint32)
      ensures this.expectedNonce == expectedNonce && this.maxFutureSkew == maxFutureSkew
    {
      this.expectedNonce := expectedNonce;
      this.maxFutureSkew := maxFutureSkew;
    }

    method AcceptFrame(session: Session, frame: Frame) returns (r: Result<bv16, PacketError>)
      modifies this
      ensures r == Judge(old(expectedNonce), maxFutureSkew, session, frame)
      ensures expectedNonce == if r.Ok? then SaturatingSucc(frame.nonce) else old(expectedNonce)
    {
      if frame.nonce < expectedNonce {
        return Err(ReplayOrStaleNonce);
      }
      if frame.nonce > Limit(expectedNonce, maxFutureSkew) {
        return Err(NonceOutOfWindow);
      }
      r := Decode(session, frame);
      if r.Ok? {
        expectedNonce := SaturatingSucc(frame.nonce);
      }
    }

    method Resync(session: Session, a: Frame, b: Frame) returns (error: Result<(), PacketError>)
      modifies this
      ensures error.Ok? <==> b.nonce == SaturatingSucc(a.nonce)
                             && Decode(session, a).Ok? && Decode(session, b).Ok?
      ensures error.Err? ==>
                error.error == if b.nonce != SaturatingSucc(a.nonce) then ResyncSequenceGap else AuthTagMismatch
      ensures expectedNonce == if error.Ok? then SaturatingSucc(b.nonce) else old(expectedNonce)
    {
      if b.nonce != SaturatingSucc(a.nonce) {
        return Err(ResyncSequenceGap);
      }
      var first := Decode(session, a);
      if first.Err? {
        return Err(first.error);
      }
      var second := Decode(session, b);
      if second.Err? {
        return Err(second.error);
      }
      expectedNonce := SaturatingSucc(b.nonce);
      error := Ok(());
    }
  }

  // ---- Runs between resyncs -------------------------------------------------

  /** The window after a run of frames. */
  function Expected(start: uint32, skew: uint32, session: Session, frames: seq<Frame>): uint32 {
    if frames == [] then start
    else
      var expected := Expected(start, skew, session, frames[..|frames| - 1]);
      var last := frames[|frames| - 1];
      if Judge(expected, skew, session, last).Ok? then SaturatingSucc(last.nonce) else expected
  }

  /** Frame `i` of the run is accepted. */
  predicate Passes(start: uint32, skew: uint32, session: Session, frames: seq<Frame>, i: nat)
    requires i < |frames|
  {
    Judge(Expected(start, skew, session, frames[..i]), skew, session, frames[i]).Ok?
  }

  lemma {:induction false} ExpectedGrows(
    start: uint32, skew: uint32, session: Session, frames: seq<Frame>, i: nat, j: nat)
    requires i <= j <= |frames|
    ensures Expected(start, skew, session, frames[..i]) <= Expected(start, skew, session, frames[..j])
    decreases j
  {
    if i < j {
      ExpectedGrows(start, skew, session, frames, i, j - 1);
      assert frames[..j][..j - 1] == frames[..j - 1];
    }
  }

  /**
   Between resyncs a frame accepted earlier and one accepted later carry
   increasing nonces, and strictly so exactly when the earlier nonce is not the
   largest one: there the window saturates and the same nonce passes again.
   */
  lemma AcceptedNoncesIncrease(start: uint32, skew: uint32, session: Session, frames: seq<Frame>, i: nat, j: nat)
    requires i < j < |frames|
    requires Passes(start, skew, session, frames, i) && Passes(start, skew, session, frames, j)
    ensures frames[i].nonce <= frames[j].nonce
    ensures frames[i].nonce < frames[j].nonce <==> frames[i].nonce != MAX
  {
    assert frames[..i + 1][..i] == frames[..i];
    ExpectedGrows(start, skew, session, frames, i + 1, j);
  }

  /** At the largest nonce an exact replay is accepted again. */
  lemma LastNonceReplays(session: Session, payload: bv16)
    ensures var frame := Encode(session, payload, MAX);
      Passes(MAX, 0, session, [frame, frame], 0) && Passes(MAX, 0, session, [frame, frame], 1)
  {
    var frame := Encode(session, payload, MAX);
    DecodeUndoesEncode(session, payload, MAX);
    assert [frame, frame][..0] == [];
    assert [frame, frame][..1] == [frame];
    assert [frame][..0] == [];
  }

  /**
   A well-formed next frame is accepted exactly while the window's bound does not
   wrap around; past that point the window refuses every nonce it expects.
   */
  lemma NextFrameAcceptedIff(expected: uint32, skew: uint32, session: Session, payload: bv16)
    ensures Judge(expected, skew, session, Encode(session, payload, expected)) == Ok(payload)
            <==> expected + skew <= MAX
  {
    DecodeUndoesEncode(session, payload, expected);
    if expected + skew > MAX {
      assert Limit(expected, skew) == expected + skew - 0x1_0000_0000;
    }
  }

  // ---- Verdicts -------------------------------------------------------------

  /**
   A frame gives its payload exactly if its tag is the session's for its nonce and
   word; the word's mask comes off.
   */
  lemma DecodesIff(session: Session, frame: Frame)
    ensures Decode(session, frame).Ok? <==> frame.tag == session.tag(frame.nonce, frame.wire)
    ensures Decode(session, frame).Err? ==> Decode(session, frame).error == AuthTagMismatch
    ensures forall payload: bv16 :: Decode(session, frame) == Ok(payload) ==>
              (frame.wire ^ session.mask(frame.nonce)) & 0xFFFF == payload as bv32
  {
  }

  /**
   A window takes a frame exactly if its nonce is at least the expected one and at
   most the bound, and its tag is right; an early nonce is reported as a replay, a
   late one as out of the window, whatever the tag. A bound past 2^32 wraps.
   */
  lemma TakesIff(expected: uint32, skew: uint32, session: Session, frame: Frame)
    ensures var r, sum: int := Judge(expected, skew, session, frame), expected as int + skew as int;
            var bound := if sum <= 0xFFFF_FFFF then sum else sum - 0x1_0000_0000;
      && (r.Ok? <==> expected <= frame.nonce <= bound && frame.tag == session.tag(frame.nonce, frame.wire))
      && (r == Err(ReplayOrStaleNonce) <==> frame.nonce < expected)
      && (r == Err(NonceOutOfWindow) <==> frame.nonce >= expected && frame.nonce > bound)
  {
  }

  /** A frame altered in its word after it was tagged is refused, unless the tag happens to fit. */
  lemma AlteredRefused(session: Session, payload: bv16, nonce: uint32, wire: bv32)
    ensures var sent := Encode(session, payload, nonce);
            Decode(session, sent.(wire := wire)).Ok? <==> session.tag(nonce, wire) == session.tag(nonce, sent.wire)
    ensures Encode(session, payload, nonce).nonce == nonce
    ensures Encode(session, payload, nonce).wire ^ session.mask(nonce) == payload as bv32
  {
    XorTwice(payload as bv32, session.mask(nonce));
  }
}
