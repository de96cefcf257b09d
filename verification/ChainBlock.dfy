/**
 The 128-byte chain block of src/blockchain/mod.rs: its layout, its 8-byte seal
 and its link to the block before it. The hash functions are parameters.
 */
module ChainBlock {
  import opened ByteCodec

  type Digest = d: seq<byte> | |d| == 32 witness seq(32, _ => 0)
  type Block = b: seq<byte> | |b| == 128 witness seq(128, _ => 0)

  /** BLAKE2s and SHA-256, with whatever digests they give. */
  datatype Hashes = Hashes(blake2s: seq<byte> -> Digest, sha256: seq<byte> -> Digest)

  /** Everything a block holds besides its link and its seal; `clock` is the wall time. */
  datatype Fields = Fields(
    index: byte, physicalId: seq<byte>, phi: seq<byte>, entropy: seq<byte>,
    knowledgeQ: uint16, speedNs: uint16,
    clock: uint32, meanNs: uint32, stdNs: uint32, samples: uint32)
  {
    predicate Valid() {
      |physicalId| == 16 && |phi| <= 32 && |entropy| == 8
    }
  }

  const MAGIC: seq<byte> := [0x47, 0x52, 0x45, 0x53, 0x43, 0x48, 0x4E, 0x31] // GRESCHN1

  function Zeros(n: nat): (r: seq<byte>)
    ensures |r| == n
  {
    seq(n, _ => 0)
  }

  /** Bytes 0..64 of a block. */
  function Head(f: Fields): (r: seq<byte>)
    requires f.Valid()
    ensures |r| == 64
  {
    MAGIC + [1, f.index] + U16Le(f.knowledgeQ) + U16Le(f.speedNs) + [0, 0] + f.physicalId
    + (f.phi + Zeros(32 - |f.phi|))
  }

  /** Bytes 96..120 of a block. */
  function Tail(f: Fields): (r: seq<byte>)
    requires f.Valid()
    ensures |r| == 24
  {
    f.entropy + U32Le(f.clock) + U32Le(f.meanNs) + U32Le(f.stdNs) + U32Le(f.samples)
  }

  /** `build_chain_block_128`. */
  function Build(hs: Hashes, f: Fields, prev: Digest): (b: Block)
    requires f.Valid()
  {
    var body := Head(f) + prev + Tail(f);
    body + hs.blake2s(body)[..8]
  }

  /** `validate_chain_block_128`: the seal only, neither magic nor version. */
  predicate SealValid(hs: Hashes, b: Block) {
    b[120..128] == hs.blake2s(b[..120])[..8]
  }

  function PrevOf(b: Block): Digest {
    b[64..96]
  }

  /** A built block passes both validators, and links to what it was built on alone. */
  lemma BuiltBlockValidates(hs: Hashes, f: Fields, prev: Digest, other: Digest)
    requires f.Valid()
    ensures SealValid(hs, Build(hs, f, prev))
    ensures PrevOf(Build(hs, f, prev)) == other <==> prev == other
  {
    var body := Head(f) + prev + Tail(f);
    var b := Build(hs, f, prev);
    assert b[..120] == body;
    assert b[120..128] == hs.blake2s(body)[..8];
    assert b[64..96] == prev;
  }

  // ---- Chains ---------------------------------------------------------------

  /** What the next block has to link to. */
  function HeadHash(hs: Hashes, chain: seq<Block>): Digest {
    if chain == [] then Zeros(32) else hs.sha256(chain[|chain| - 1])
  }

  /** Every block is sealed and links to the block before it, the first to zeros. */
  ghost predicate Unbroken(hs: Hashes, chain: seq<Block>) {
    forall i :: 0 <= i < |chain| ==> SealValid(hs, chain[i]) && PrevOf(chain[i]) == HeadHash(hs, chain[..i])
  }

  lemma UnbrokenExtends(hs: Hashes, chain: seq<Block>, b: Block)
    requires Unbroken(hs, chain) && SealValid(hs, b) && PrevOf(b) == HeadHash(hs, chain)
    ensures Unbroken(hs, chain + [b])
  {
    var longer := chain + [b];
    forall i | 0 <= i < |longer|
      ensures SealValid(hs, longer[i]) && PrevOf(longer[i]) == HeadHash(hs, longer[..i])
    {
      assert longer[..i] == chain[..i];
      if i == |chain| {
        assert chain[..i] == chain;
      }
    }
  }

  lemma UnbrokenPrefix(hs: Hashes, chain: seq<Block>)
    requires Unbroken(hs, chain) && chain != []
    ensures Unbroken(hs, chain[..|chain| - 1])
    ensures PrevOf(chain[|chain| - 1]) == HeadHash(hs, chain[..|chain| - 1])
  {
    var rest := chain[..|chain| - 1];
    forall i | 0 <= i < |rest|
      ensures SealValid(hs, rest[i]) && PrevOf(rest[i]) == HeadHash(hs, rest[..i])
    {
      assert rest[..i] == chain[..i];
    }
  }

  ghost predicate Collision(hs: Hashes, x: Block, y: Block) {
    x != y && hs.sha256(x) == hs.sha256(y)
  }

  /** Two different blocks of the two chains with one SHA-256 digest. */
  ghost predicate Collide(hs: Hashes, xs: seq<Block>, ys: seq<Block>) {
    exists x, y :: x in xs && y in ys && Collision(hs, x, y)
  }

  /** A block whose SHA-256 digest is the zeros that a first block links to. */
  ghost predicate HashesToZero(hs: Hashes, chain: seq<Block>) {
    exists b :: b in chain && hs.sha256(b) == Zeros(32)
  }

  lemma LongerCollide(hs: Hashes, xs: seq<Block>, ys: seq<Block>, n: nat, m: nat)
    requires n <= |xs| && m <= |ys|
    ensures Collide(hs, xs[..n], ys[..m]) ==> Collide(hs, xs, ys)
  {
    if Collide(hs, xs[..n], ys[..m]) {
      var x, y :| x in xs[..n] && y in ys[..m] && Collision(hs, x, y);
      assert x in xs && y in ys;
    }
  }

  lemma LongerHashes(hs: Hashes, xs: seq<Block>, n: nat)
    requires n <= |xs|
    ensures HashesToZero(hs, xs[..n]) ==> HashesToZero(hs, xs)
  {
    if HashesToZero(hs, xs[..n]) {
      var b :| b in xs[..n] && hs.sha256(b) == Zeros(32);
      assert b in xs;
    }
  }

  lemma Rejoined(xs: seq<Block>)
    requires xs != []
    ensures xs == xs[..|xs| - 1] + [xs[|xs| - 1]]
  {
  }

  lemma ZeroHead(hs: Hashes, chain: seq<Block>)
    requires chain != [] && HeadHash(hs, chain) == Zeros(32)
    ensures HashesToZero(hs, chain)
  {
    assert chain[|chain| - 1] in chain;
  }

  ghost predicate SameOrBroken(hs: Hashes, xs: seq<Block>, ys: seq<Block>) {
    xs == ys || Collide(hs, xs, ys) || HashesToZero(hs, xs) || HashesToZero(hs, ys)
  }

  lemma OneLonger(hs: Hashes, xs: seq<Block>, ys: seq<Block>)
    requires xs != [] && ys != [] && xs[|xs| - 1] == ys[|ys| - 1]
    requires SameOrBroken(hs, xs[..|xs| - 1], ys[..|ys| - 1])
    ensures SameOrBroken(hs, xs, ys)
  {
    LongerCollide(hs, xs, ys, |xs| - 1, |ys| - 1);
    LongerHashes(hs, xs, |xs| - 1);
    LongerHashes(hs, ys, |ys| - 1);
    Rejoined(xs);
    Rejoined(ys);
  }

  /**
   The head hash pins down the whole history: two unbroken chains with the same
   head are the same chain, of one length, or contain a SHA-256 collision or a
   block whose digest is zero.
   */
  lemma {:induction false} HeadFixesHistory(hs: Hashes, xs: seq<Block>, ys: seq<Block>)
    requires Unbroken(hs, xs) && Unbroken(hs, ys) && HeadHash(hs, xs) == HeadHash(hs, ys)
    ensures xs == ys || Collide(hs, xs, ys) || HashesToZero(hs, xs) || HashesToZero(hs, ys)
    decreases |xs|
  {
    if xs == [] || ys == [] {
      if xs != [] {
        ZeroHead(hs, xs);
      } else if ys != [] {
        ZeroHead(hs, ys);
      }
    } else {
      var x, y := xs[|xs| - 1], ys[|ys| - 1];
      if x != y {
        assert Collision(hs, x, y);
      } else {
        UnbrokenPrefix(hs, xs);
        UnbrokenPrefix(hs, ys);
        HeadFixesHistory(hs, xs[..|xs| - 1], ys[..|ys| - 1]);
        OneLonger(hs, xs, ys);
      }
    }
  }

  // ---- The bytes of a block -------------------------------------------------

  /** Where everything stands in a built block. */
  lemma BlockIs(hs: Hashes, f: Fields, prev: Digest)
    requires f.Valid()
    ensures var b := Build(hs, f, prev);
      && b[..8] == [0x47, 0x52, 0x45, 0x53, 0x43, 0x48, 0x4E, 0x31] && b[8] == 1 && b[9] == f.index
      && b[10..12] == U16Le(f.knowledgeQ) && b[12..14] == U16Le(f.speedNs) && b[14..16] == [0, 0]
      && b[16..32] == f.physicalId && b[32..32 + |f.phi|] == f.phi
      && (forall i :: 32 + |f.phi| <= i < 64 ==> b[i] == 0)
      && b[64..96] == prev && b[96..104] == f.entropy
      && b[104..108] == U32Le(f.clock) && b[108..112] == U32Le(f.meanNs)
      && b[112..116] == U32Le(f.stdNs) && b[116..120] == U32Le(f.samples)
      && b[120..128] == hs.blake2s(b[..120])[..8]
  {
    var head, tail := Head(f), Tail(f);
    var body := head + prev + tail;
    var b := Build(hs, f, prev);
    HeadIs(f);
    TailIs(f);
    assert b[..120] == body;
    assert b[..64] == head && b[96..120] == tail;
    Slices(b, head, tail);
  }

  lemma HeadIs(f: Fields)
    requires f.Valid()
    ensures var h := Head(f);
      && h[..8] == [0x47, 0x52, 0x45, 0x53, 0x43, 0x48, 0x4E, 0x31] && h[8] == 1 && h[9] == f.index
      && h[10..12] == U16Le(f.knowledgeQ) && h[12..14] == U16Le(f.speedNs) && h[14..16] == [0, 0]
      && h[16..32] == f.physicalId && h[32..32 + |f.phi|] == f.phi
      && (forall i :: 32 + |f.phi| <= i < 64 ==> h[i] == 0)
  {
  }

  lemma TailIs(f: Fields)
    requires f.Valid()
    ensures var t := Tail(f);
      && t[..8] == f.entropy && t[8..12] == U32Le(f.clock) && t[12..16] == U32Le(f.meanNs)
      && t[16..20] == U32Le(f.stdNs) && t[20..24] == U32Le(f.samples)
  {
  }

  lemma Slices(b: Block, head: seq<byte>, tail: seq<byte>)
    requires |head| == 64 && |tail| == 24 && b[..64] == head && b[96..120] == tail
    ensures forall i, j :: 0 <= i <= j <= 64 ==> b[i..j] == head[i..j]
    ensures forall i, j :: 0 <= i <= j <= 24 ==> b[96 + i..96 + j] == tail[i..j]
    ensures forall i :: 0 <= i < 64 ==> b[i] == head[i]
  {
    forall i, j | 0 <= i <= j <= 64
      ensures b[i..j] == head[i..j]
    {
      assert b[..64][i..j] == b[i..j];
    }
    forall i, j | 0 <= i <= j <= 24
      ensures b[96 + i..96 + j] == tail[i..j]
    {
      assert forall k :: 0 <= k < 24 ==> tail[k] == b[96 + k];
    }
    forall i | 0 <= i < 64
      ensures b[i] == head[i]
    {
      assert b[..64][i] == b[i];
    }
  }
}
