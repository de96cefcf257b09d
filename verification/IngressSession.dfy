/**
 One connection of src/bin/hyperion_raw_ingress.rs: frames are checked against
 the hash of the last accepted block, and only a completed swap moves that hash
 on. What the shared ledger answers is a parameter; SwapLedger models it.
 */
module IngressSession {
  import opened ByteCodec
  import opened ChainBlock

  datatype Status = OK | INVALID_BLOCK | INSUFFICIENT_FUNDS | CHAIN_LINK_BROKEN

  /** Bytes 0..20 of the swap payload. */
  datatype Request = Request(src: uint16, dst: uint16, amount: nat, fxRate: nat)

  function U64Of(b: seq<byte>): nat
    requires |b| == 8
  {
    U32Of(b[..4]) + U32 * U32Of(b[4..])
  }

  function ParseRequest(swap: seq<byte>): Request
    requires |swap| == 64
  {
    Request(U16Of(swap[0..2]), U16Of(swap[2..4]), U64Of(swap[4..12]), U64Of(swap[12..20]))
  }

  /** The code's verdict on a frame, before it is known what the ledger says. */
  function Verdict(hs: Hashes, prev: Digest, block: Block, ledgerAccepts: bool): Status {
    if !SealValid(hs, block) then INVALID_BLOCK
    else if PrevOf(block) != prev then CHAIN_LINK_BROKEN
    else if ledgerAccepts then OK
    else INSUFFICIENT_FUNDS
  }

  class Session {
    const hs: Hashes
    var expectedPrev: Digest
    var processed: nat
    ghost var accepted: seq<Block>

    /** The accepted blocks form an unbroken chain whose head is `expectedPrev`. */
    ghost predicate Valid()
      reads this
    {
      && Unbroken(hs, accepted)
      && expectedPrev == HeadHash(hs, accepted)
      && processed == |accepted|
    }

    constructor (hs: Hashes)
      ensures Valid() && accepted == [] && this.hs == hs
    {
      this.hs := hs;
      expectedPrev := Zeros(32);
      processed := 0;
      accepted := [];
    }

    /** A frame with a client block. `ledger` is the outcome of the swap it asks for. */
    method ProcessFrame(frame: seq<byte>, ledger: Request -> bool) returns (status: Status)
      requires Valid() && |frame| == 192
      modifies this
      ensures Valid()
      ensures status == Verdict(hs, old(expectedPrev), frame[..128], ledger(ParseRequest(frame[128..])))
      ensures accepted == if status == OK then old(accepted) + [frame[..128]] else old(accepted)
      ensures status != OK ==> expectedPrev == old(expectedPrev) && processed == old(processed)
    {
      var block: Block := frame[..128];
      if !SealValid(hs, block) {
        return INVALID_BLOCK;
      }
      if PrevOf(block) != expectedPrev {
        return CHAIN_LINK_BROKEN;
      }
      var request := ParseRequest(frame[128..]);
      if !ledger(request) {
        return INSUFFICIENT_FUNDS;
      }
      UnbrokenExtends(hs, accepted, block);
      expectedPrev := hs.sha256(block);
      processed := processed + 1;
      accepted := accepted + [block];
      status := OK;
    }

    /** Bank mode: the gateway mints the block itself, on top of the last one. */
    method ProcessBankFrame(swap: seq<byte>, fields: Fields, ledger: Request -> bool)
      returns (status: Status)
      requires Valid() && |swap| == 64 && fields.Valid() && fields.index == processed % 256
      modifies this
      ensures Valid()
      ensures status == if ledger(ParseRequest(swap)) then OK else INSUFFICIENT_FUNDS
      ensures accepted == if status == OK then old(accepted) + [Build(hs, fields, old(expectedPrev))]
                          else old(accepted)
      ensures status != OK ==> expectedPrev == old(expectedPrev) && processed == old(processed)
    {
      var request := ParseRequest(swap);
      var block := Build(hs, fields, expectedPrev);
      var blockHash := hs.sha256(block);
      if !ledger(request) {
        return INSUFFICIENT_FUNDS;
      }
      BuiltBlockValidates(hs, fields, expectedPrev, expectedPrev);
      UnbrokenExtends(hs, accepted, block);
      expectedPrev := blockHash;
      processed := processed + 1;
      accepted := accepted + [block];
      status := OK;
    }
  }

  // ---- Whole sessions -------------------------------------------------------

  /** A session as a function of the frames it receives and the ledger's answers. */
  function Accepted(hs: Hashes, frames: seq<(Block, bool)>): seq<Block> {
    if frames == [] then []
    else
      var before := Accepted(hs, frames[..|frames| - 1]);
      var (block, ledgerAccepts) := frames[|frames| - 1];
      if Verdict(hs, HeadHash(hs, before), block, ledgerAccepts) == OK then before + [block] else before
  }

  /** Whatever frames arrive, what is accepted is an unbroken chain. */
  lemma {:induction false} AcceptedUnbroken(hs: Hashes, frames: seq<(Block, bool)>)
    ensures Unbroken(hs, Accepted(hs, frames))
    decreases |frames|
  {
    if frames != [] {
      var rest := frames[..|frames| - 1];
      AcceptedUnbroken(hs, rest);
      var (block, ledgerAccepts) := frames[|frames| - 1];
      if Verdict(hs, HeadHash(hs, Accepted(hs, rest)), block, ledgerAccepts) == OK {
        UnbrokenExtends(hs, Accepted(hs, rest), block);
      }
    }
  }

  /**
   Sending the last accepted block again is answered with a broken link unless
   the block contains its own SHA-256 digest.
   */
  lemma ReplayRejected(hs: Hashes, frames: seq<(Block, bool)>, block: Block, first: bool, again: bool)
    requires Verdict(hs, HeadHash(hs, Accepted(hs, frames)), block, first) == OK
    ensures Accepted(hs, frames + [(block, first)]) == Accepted(hs, frames) + [block]
    ensures Verdict(hs, HeadHash(hs, Accepted(hs, frames + [(block, first)])), block, again) == CHAIN_LINK_BROKEN
            <==> hs.sha256(block) != PrevOf(block)
  {
    var longer := frames + [(block, first)];
    assert longer[..|longer| - 1] == frames;
  }

  /**
   Two clients whose sessions end on one head sent the same accepted blocks, or
   sent two blocks that collide or one whose digest is zero.
   */
  lemma SameHeadSameHistory(hs: Hashes, xs: seq<(Block, bool)>, ys: seq<(Block, bool)>)
    requires HeadHash(hs, Accepted(hs, xs)) == HeadHash(hs, Accepted(hs, ys))
    ensures Accepted(hs, xs) == Accepted(hs, ys) || Collide(hs, Accepted(hs, xs), Accepted(hs, ys))
            || HashesToZero(hs, Accepted(hs, xs)) || HashesToZero(hs, Accepted(hs, ys))
  {
    AcceptedUnbroken(hs, xs);
    AcceptedUnbroken(hs, ys);
    HeadFixesHistory(hs, Accepted(hs, xs), Accepted(hs, ys));
  }

  // ---- Requests and verdicts ------------------------------------------------

  /**
   Where a swap request stands in its frame: source and destination account in
   two bytes each, amount and rate in eight, least significant bytes first.
   */
  lemma RequestIs(swap: seq<byte>)
    requires |swap| == 64
    ensures var r := ParseRequest(swap);
      && r.src == swap[0] as int + 0x100 * swap[1] as int
      && r.dst == swap[2] as int + 0x100 * swap[3] as int
      && r.amount == swap[4] as int + 0x100 * swap[5] as int + 0x1_0000 * swap[6] as int + 0x100_0000 * swap[7] as int
                     + 0x1_0000_0000 * (swap[8] as int + 0x100 * swap[9] as int + 0x1_0000 * swap[10] as int
                                        + 0x100_0000 * swap[11] as int)
      && r.fxRate == swap[12] as int + 0x100 * swap[13] as int + 0x1_0000 * swap[14] as int
                     + 0x100_0000 * swap[15] as int
                     + 0x1_0000_0000 * (swap[16] as int + 0x100 * swap[17] as int + 0x1_0000 * swap[18] as int
                                        + 0x100_0000 * swap[19] as int)
  {
    assert swap[4..12][..4] == swap[4..8] && swap[4..12][4..] == swap[8..12];
    assert swap[12..20][..4] == swap[12..16] && swap[12..20][4..] == swap[16..20];
  }

  /**
   A frame is accepted exactly if its seal is right, it links to the last
   accepted block and the ledger takes the swap; and a frame with several faults
   is answered with the first of them in this order.
   */
  lemma VerdictIs(hs: Hashes, prev: Digest, block: Block, ledgerAccepts: bool)
    ensures var v, sealed := Verdict(hs, prev, block, ledgerAccepts), block[120..128] == hs.blake2s(block[..120])[..8];
      && (v == OK <==> sealed && block[64..96] == prev && ledgerAccepts)
      && (v == INVALID_BLOCK <==> !sealed)
      && (v == CHAIN_LINK_BROKEN <==> sealed && block[64..96] != prev)
      && (v == INSUFFICIENT_FUNDS <==> sealed && block[64..96] == prev && !ledgerAccepts)
  {
  }
}
