/**
 The legacy transactions of src/bin/hft_web3_bench.rs: a hand-laid 54-byte
 signing preimage held against generic RLP of the nine EIP-155 fields.
 */
module LegacyTx {
  import opened BigEndian
  import opened ByteCodec
  import opened Outcome
  import opened Rlp

  type uint64 = x: int | 0 <= x < 0x1_0000_0000_0000_0000
  type Address = a: seq<byte> | |a| == 20 witness seq(20, _ => 0)
  type Scalar = s: seq<byte> | |s| == 32 witness seq(32, _ => 0)

  const GAS_PRICE: uint64 := 1_000_000_000
  const GAS_LIMIT: uint64 := 220_000
  const CHAIN_ID: uint64 := 8453

  /** Rust slices are never longer than this. */
  const MAX_SLICE: nat := 0x7FFF_FFFF_FFFF_FFFF

  /** `arb_payload`. */
  function ArbPayload(blockNumber: uint64, spreadBps: uint32): (r: seq<byte>)
    ensures |r| == 12
  {
    Fixed(blockNumber, 8) + Fixed(spreadBps, 4)
  }

  function Number(x: uint64): (r: Item)
    ensures Fits(r)
  {
    SizeBytes(x);
    Text(Minimal(x))
  }

  /** The nine fields EIP-155 hashes for signing. */
  function UnsignedFields(nonce: uint64, to: Address, blockNumber: uint64, spreadBps: uint32): seq<Item> {
    [Number(nonce)] + ([Number(GAS_PRICE)] + ([Number(GAS_LIMIT)] + LastSixFields(to, blockNumber, spreadBps)))
  }

  function LastSixFields(to: Address, blockNumber: uint64, spreadBps: uint32): seq<Item> {
    [Text(to)] + ([Number(0)] + ([Text(ArbPayload(blockNumber, spreadBps))] + LastThreeFields()))
  }

  function LastThreeFields(): seq<Item> {
    [Number(CHAIN_ID)] + ([Number(0)] + [Number(0)])
  }

  // ---- The hand-laid encoder ------------------------------------------------

  /** What the hand-laid encoder writes: only the low 24 bits of the nonce survive. */
  function FastBytes(nonce: uint64, to: Address, blockNumber: uint64, spreadBps: uint32): (r: seq<byte>)
    ensures |r| == 54
  {
    [0xF5] + ([0x83] + Fixed(nonce, 3)) + ([0x84] + Fixed(GAS_PRICE, 4)) + ([0x83] + Fixed(GAS_LIMIT, 3))
    + ([0x94] + to) + [0x80] + ([0x8C] + ArbPayload(blockNumber, spreadBps)) + [0x82, 0x21, 0x05] + [0x80, 0x80]
  }

  lemma FixedDigits(x: nat)
    ensures Fixed(x, 3) == [x / 65536 % 256, x / 256 % 256, x % 256]
    ensures Fixed(x, 4) == [x / 16777216 % 256, x / 65536 % 256, x / 256 % 256, x % 256]
  {
    assert x / 256 / 256 == x / 65536;
    assert x / 256 / 256 / 256 == x / 16777216;
    assert Fixed(x / 65536, 1) == [x / 65536 % 256];
    assert Fixed(x / 256, 2) == Fixed(x / 65536, 1) + [x / 256 % 256];
    assert Fixed(x / 16777216, 1) == [x / 16777216 % 256];
    assert Fixed(x / 65536, 2) == Fixed(x / 16777216, 1) + [x / 65536 % 256];
    assert Fixed(x / 256, 3) == Fixed(x / 65536, 2) + [x / 256 % 256];
  }

  /** `append_u24_field`. */
  method AppendU24Field(buf: array<byte>, idx: nat, value: uint32) returns (next: nat)
    requires idx + 4 <= buf.Length
    modifies buf
    ensures next == idx + 4
    ensures buf[..next] == old(buf[..idx]) + ([0x83] + Fixed(value, 3)) && buf[next..] == old(buf[idx + 4..])
  {
    FixedDigits(value);
    buf[idx] := 0x83;
    buf[idx + 1] := value / 65536 % 256;
    buf[idx + 2] := value / 256 % 256;
    buf[idx + 3] := value % 256;
    next := idx + 4;
  }

  /** `append_fixed_u32_field`. */
  method AppendFixedU32Field(buf: array<byte>, idx: nat, value: uint32) returns (next: nat)
    requires idx + 5 <= buf.Length
    modifies buf
    ensures next == idx + 5
    ensures buf[..next] == old(buf[..idx]) + ([0x84] + Fixed(value, 4)) && buf[next..] == old(buf[idx + 5..])
  {
    FixedDigits(value);
    buf[idx] := 0x84;
    buf[idx + 1] := value / 16777216 % 256;
    buf[idx + 2] := value / 65536 % 256;
    buf[idx + 3] := value / 256 % 256;
    buf[idx + 4] := value % 256;
    next := idx + 5;
  }

  /** Copies `bytes` into the buffer at `idx`. */
  method CopyAt(buf: array<byte>, idx: nat, bytes: seq<byte>) returns (next: nat)
    requires idx + |bytes| <= buf.Length
    modifies buf
    ensures next == idx + |bytes|
    ensures buf[..next] == old(buf[..idx]) + bytes && buf[next..] == old(buf[idx + |bytes|..])
  {
    forall i | 0 <= i < |bytes| {
      buf[idx + i] := bytes[i];
    }
    next := idx + |bytes|;
  }

  /** `encode_legacy_tx_unsigned_fast`. */
  method EncodeUnsignedFast(nonce: uint64, to: Address, blockNumber: uint64, spreadBps: uint32)
    returns (out: array<byte>)
    ensures fresh(out) && out[..] == FastBytes(nonce, to, blockNumber, spreadBps)
  {
    out := new byte[54](_ => 0);
    LowBytes(nonce);
    var idx := CopyAt(out, 0, [0xF5]);
    assert out[..idx] == [0xF5];
    idx := AppendU24Field(out, idx, nonce % 0x1_0000_0000);
    idx := AppendFixedU32Field(out, idx, GAS_PRICE);
    idx := AppendU24Field(out, idx, GAS_LIMIT);
    idx := CopyAt(out, idx, [0x94] + to);
    idx := CopyAt(out, idx, [0x80]);
    idx := CopyAt(out, idx, [0x8C] + ArbPayload(blockNumber, spreadBps));
    idx := CopyAt(out, idx, [0x82, 0x21, 0x05]);
    idx := CopyAt(out, idx, [0x80, 0x80]);
    assert out[..] == out[..idx];
  }

  lemma AddMultiple(m: nat, y: nat)
    ensures (256 * m + y) % 256 == y % 256
  {
  }

  lemma LowDigits(x: nat)
    ensures Fixed(x % 0x100_0000, 3) == Fixed(x, 3)
  {
    var q, y := x / 0x100_0000, x % 0x100_0000;
    assert x == 0x100_0000 * q + y;
    FixedDigits(x);
    FixedDigits(y);
    QuotientShift(q, y);
    AddMultiple(0x1_0000 * q, y);
    AddMultiple(0x100 * q, y / 256);
    AddMultiple(q, y / 65536);
  }

  lemma QuotientShift(q: nat, y: nat)
    ensures (0x100_0000 * q + y) / 256 == 0x1_0000 * q + y / 256
    ensures (0x100_0000 * q + y) / 65536 == 0x100 * q + y / 65536
  {
  }

  lemma ModuloTwice(x: nat)
    ensures x % 0x1_0000_0000 % 0x100_0000 == x % 0x100_0000
  {
    var q, y := x / 0x1_0000_0000, x % 0x1_0000_0000;
    assert x == 0x1_0000_0000 * q + y;
    assert x == 0x100_0000 * (256 * q + y / 0x100_0000) + y % 0x100_0000;
  }

  lemma LowBytes(x: nat)
    ensures Fixed(x % 0x1_0000_0000, 3) == Fixed(x, 3)
  {
    LowDigits(x);
    LowDigits(x % 0x1_0000_0000);
    ModuloTwice(x);
  }

  // ---- Against generic RLP --------------------------------------------------

  /** The bytes of a list's payload. */
  function Stream(xs: seq<Item>): seq<byte>
    requires FitAll(xs)
  {
    Concat(EncodeAll(xs))
  }

  lemma StreamCons(x: Item, xs: seq<Item>)
    requires Fits(x) && FitAll(xs)
    ensures FitAll([x] + xs) && LengthAll([x] + xs) == Length(x) + LengthAll(xs)
    ensures Stream([x] + xs) == Encode(x) + Stream(xs)
  {
    assert ([x] + xs)[1..] == xs;
    assert EncodeAll([x] + xs)[1..] == EncodeAll(xs);
  }

  lemma NumberBytes(x: uint64, n: nat)
    requires 2 <= n <= 8 && Pow256(n - 1) <= x < Pow256(n)
    ensures Encode(Number(x)) == [0x80 + n] + Fixed(x, n)
  {
    MinimalLength(x, n);
    MinimalLength(x, n - 1);
    FixedOfMinimal(x);
    SizeBytes(x);
  }

  lemma Pow256Table()
    ensures Pow256(1) == 0x100 && Pow256(2) == 0x1_0000 && Pow256(3) == 0x100_0000 && Pow256(4) == 0x1_0000_0000
  {
    assert Pow256(1) == 256 * Pow256(0);
    assert Pow256(2) == 256 * Pow256(1);
    assert Pow256(3) == 256 * Pow256(2);
    assert Pow256(4) == 256 * Pow256(3);
  }

  lemma ConstantFields()
    ensures Encode(Number(GAS_PRICE)) == [0x84] + Fixed(GAS_PRICE, 4)
    ensures Encode(Number(GAS_LIMIT)) == [0x83] + Fixed(GAS_LIMIT, 3)
    ensures Encode(Number(CHAIN_ID)) == [0x82, 0x21, 0x05]
    ensures Encode(Number(0)) == [0x80]
  {
    Pow256Table();
    NumberBytes(GAS_PRICE, 4);
    NumberBytes(GAS_LIMIT, 3);
    NumberBytes(CHAIN_ID, 2);
    assert Fixed(CHAIN_ID, 2) == Fixed(CHAIN_ID / 256, 1) + [0x05];
  }

  /** The payload bytes of the last six fields. */
  function LastSixBytes(to: Address, blockNumber: uint64, spreadBps: uint32): (r: seq<byte>)
    ensures |r| == 40
  {
    ([0x94] + to) + ([0x80] + (([0x8C] + ArbPayload(blockNumber, spreadBps)) + ([0x82, 0x21, 0x05] + [0x80, 0x80])))
  }

  /** Everything of the list payload behind the nonce. */
  function AfterNonce(to: Address, blockNumber: uint64, spreadBps: uint32): (r: seq<byte>)
    ensures |r| == 49
  {
    ([0x84] + Fixed(GAS_PRICE, 4)) + (([0x83] + Fixed(GAS_LIMIT, 3)) + LastSixBytes(to, blockNumber, spreadBps))
  }

  lemma LastThreeBytes()
    ensures FitAll(LastThreeFields()) && Stream(LastThreeFields()) == [0x82, 0x21, 0x05] + [0x80, 0x80]
  {
    ConstantFields();
    var none: seq<Item> := [];
    StreamCons(Number(0), none);
    assert [Number(0)] + none == [Number(0)];
    StreamCons(Number(0), [Number(0)]);
    StreamCons(Number(CHAIN_ID), [Number(0)] + [Number(0)]);
  }

  lemma LastSixStream(to: Address, blockNumber: uint64, spreadBps: uint32)
    ensures FitAll(LastSixFields(to, blockNumber, spreadBps))
    ensures Stream(LastSixFields(to, blockNumber, spreadBps)) == LastSixBytes(to, blockNumber, spreadBps)
  {
    var data := [Text(ArbPayload(blockNumber, spreadBps))];
    LastThreeBytes();
    ConstantFields();
    StreamCons(data[0], LastThreeFields());
    StreamCons(Number(0), data + LastThreeFields());
    StreamCons(Text(to), [Number(0)] + (data + LastThreeFields()));
  }

  lemma PayloadBytes(nonce: uint64, to: Address, blockNumber: uint64, spreadBps: uint32)
    ensures FitAll(UnsignedFields(nonce, to, blockNumber, spreadBps))
    ensures Stream(UnsignedFields(nonce, to, blockNumber, spreadBps)) ==
            Encode(Number(nonce)) + AfterNonce(to, blockNumber, spreadBps)
  {
    var last := LastSixFields(to, blockNumber, spreadBps);
    LastSixStream(to, blockNumber, spreadBps);
    ConstantFields();
    StreamCons(Number(GAS_LIMIT), last);
    StreamCons(Number(GAS_PRICE), [Number(GAS_LIMIT)] + last);
    StreamCons(Number(nonce), [Number(GAS_PRICE)] + ([Number(GAS_LIMIT)] + last));
  }

  lemma NonceLength(nonce: uint64)
    ensures Length(Number(nonce)) <= 9
    ensures Length(Number(nonce)) == 4 <==> 0x1_0000 <= nonce < 0x100_0000
  {
    Pow256Table();
    SizeBytes(nonce);
    MinimalLength(nonce, 2);
    MinimalLength(nonce, 3);
  }

  /** The signing preimage by generic RLP. */
  function Generic(nonce: uint64, to: Address, blockNumber: uint64, spreadBps: uint32): seq<byte> {
    PayloadBytes(nonce, to, blockNumber, spreadBps);
    ConcatLength(UnsignedFields(nonce, to, blockNumber, spreadBps));
    NonceLength(nonce);
    Encode(List(UnsignedFields(nonce, to, blockNumber, spreadBps)))
  }

  lemma Regroup(a: seq<byte>, b: seq<byte>, c: seq<byte>, d: seq<byte>, e: seq<byte>,
                f: seq<byte>, g: seq<byte>, h: seq<byte>, i: seq<byte>)
    ensures a + b + c + d + e + f + g + h + i == a + (b + (c + (d + (e + (f + (g + (h + i)))))))
  {
    assert a + b + c + d + e + f + g + (h + i) == a + b + c + d + e + f + g + h + i;
    assert a + b + c + d + e + f + (g + (h + i)) == a + b + c + d + e + f + g + (h + i);
    assert a + b + c + d + e + (f + (g + (h + i))) == a + b + c + d + e + f + (g + (h + i));
    assert a + b + c + d + (e + (f + (g + (h + i)))) == a + b + c + d + e + (f + (g + (h + i)));
  }

  lemma FastSplits(nonce: uint64, to: Address, blockNumber: uint64, spreadBps: uint32)
    ensures FastBytes(nonce, to, blockNumber, spreadBps) ==
            [0xF5] + (([0x83] + Fixed(nonce, 3)) + AfterNonce(to, blockNumber, spreadBps))
  {
    Regroup([0xF5], [0x83] + Fixed(nonce, 3), [0x84] + Fixed(GAS_PRICE, 4), [0x83] + Fixed(GAS_LIMIT, 3),
            [0x94] + to, [0x80], [0x8C] + ArbPayload(blockNumber, spreadBps), [0x82, 0x21, 0x05], [0x80, 0x80]);
  }

  lemma GenericSplits(nonce: uint64, to: Address, blockNumber: uint64, spreadBps: uint32)
    requires 0x1_0000 <= nonce < 0x100_0000
    ensures Generic(nonce, to, blockNumber, spreadBps) ==
            [0xF5] + (([0x83] + Fixed(nonce, 3)) + AfterNonce(to, blockNumber, spreadBps))
  {
    PayloadBytes(nonce, to, blockNumber, spreadBps);
    Pow256Table();
    NumberBytes(nonce, 3);
  }

  lemma GenericLength(nonce: uint64, to: Address, blockNumber: uint64, spreadBps: uint32)
    ensures |Generic(nonce, to, blockNumber, spreadBps)| == 54 <==> Length(Number(nonce)) == 4
  {
    PayloadBytes(nonce, to, blockNumber, spreadBps);
    ConcatLength(UnsignedFields(nonce, to, blockNumber, spreadBps));
    NonceLength(nonce);
  }

  /** The hand-laid encoder is generic RLP exactly for the nonces that take three bytes. */
  lemma FastIsGenericIff(nonce: uint64, to: Address, blockNumber: uint64, spreadBps: uint32)
    ensures FastBytes(nonce, to, blockNumber, spreadBps) == Generic(nonce, to, blockNumber, spreadBps) <==>
            0x1_0000 <= nonce < 0x100_0000
  {
    NonceLength(nonce);
    GenericLength(nonce, to, blockNumber, spreadBps);
    if 0x1_0000 <= nonce < 0x100_0000 {
      FastSplits(nonce, to, blockNumber, spreadBps);
      GenericSplits(nonce, to, blockNumber, spreadBps);
    }
  }

  lemma SplitEqual(a: seq<byte>, b: seq<byte>, c: seq<byte>, d: seq<byte>)
    requires |a| == |c| && a + b == c + d
    ensures a == c && b == d
  {
    assert (a + b)[..|a|] == a && (c + d)[..|a|] == c;
    assert (a + b)[|a|..] == b && (c + d)[|a|..] == d;
  }

  lemma PayloadInjective(b1: uint64, s1: uint32, b2: uint64, s2: uint32)
    requires ArbPayload(b1, s1) == ArbPayload(b2, s2)
    ensures b1 == b2 && s1 == s2
  {
    SplitEqual(Fixed(b1, 8), Fixed(s1, 4), Fixed(b2, 8), Fixed(s2, 4));
    Pow256Table();
    Pow256Is8();
    FixedSame(b1, b2, 8);
    FixedSame(s1, s2, 4);
  }

  lemma LastSixInjective(to1: Address, b1: uint64, s1: uint32, to2: Address, b2: uint64, s2: uint32)
    requires LastSixBytes(to1, b1, s1) == LastSixBytes(to2, b2, s2)
    ensures to1 == to2 && b1 == b2 && s1 == s2
  {
    var end: seq<byte> := [0x82, 0x21, 0x05] + [0x80, 0x80];
    var p1, p2 := [0x8C] + ArbPayload(b1, s1), [0x8C] + ArbPayload(b2, s2);
    SplitEqual([0x94] + to1, [0x80] + (p1 + end), [0x94] + to2, [0x80] + (p2 + end));
    SplitEqual([0x94], to1, [0x94], to2);
    SplitEqual([0x80], p1 + end, [0x80], p2 + end);
    SplitEqual(p1, end, p2, end);
    SplitEqual([0x8C], ArbPayload(b1, s1), [0x8C], ArbPayload(b2, s2));
    PayloadInjective(b1, s1, b2, s2);
  }

  /**
   Two hand-laid preimages coincide exactly when everything but the nonce is
   equal and the nonces agree in their low 24 bits.
   */
  lemma FastSameIff(n1: uint64, to1: Address, b1: uint64, s1: uint32, n2: uint64, to2: Address, b2: uint64, s2: uint32)
    ensures FastBytes(n1, to1, b1, s1) == FastBytes(n2, to2, b2, s2) <==>
            n1 % 0x100_0000 == n2 % 0x100_0000 && to1 == to2 && b1 == b2 && s1 == s2
  {
    LowDigits(n1);
    LowDigits(n2);
    if FastBytes(n1, to1, b1, s1) == FastBytes(n2, to2, b2, s2) {
      FastSplits(n1, to1, b1, s1);
      FastSplits(n2, to2, b2, s2);
      var m1, m2 := [0x83] + Fixed(n1, 3), [0x83] + Fixed(n2, 3);
      var gas1, gas2 := [0x84] + Fixed(GAS_PRICE, 4), [0x83] + Fixed(GAS_LIMIT, 3);
      SplitEqual([0xF5], m1 + AfterNonce(to1, b1, s1), [0xF5], m2 + AfterNonce(to2, b2, s2));
      SplitEqual(m1, AfterNonce(to1, b1, s1), m2, AfterNonce(to2, b2, s2));
      SplitEqual([0x83], Fixed(n1, 3), [0x83], Fixed(n2, 3));
      SplitEqual(gas1, gas2 + LastSixBytes(to1, b1, s1), gas1, gas2 + LastSixBytes(to2, b2, s2));
      SplitEqual(gas2, LastSixBytes(to1, b1, s1), gas2, LastSixBytes(to2, b2, s2));
      LastSixInjective(to1, b1, s1, to2, b2, s2);
      Pow256Table();
      FixedSameIff(n1, n2, 3);
    }
  }

  // ---- The signed transaction -----------------------------------------------

  /** A signature scalar without leading zeros, except that zero keeps one. */
  function Trimmed(s: Scalar): (r: seq<byte>)
    ensures |r| <= 32
  {
    TrimmedLength(s);
    var m := Minimal(ValueOf(s));
    if m == [] then [0] else m
  }

  lemma {:induction false} TrimmedLength(b: seq<byte>)
    ensures |Minimal(ValueOf(b))| <= |b|
  {
    if b != [] {
      TrimmedLength(b[..|b| - 1]);
      var v, d: int := ValueOf(b[..|b| - 1]), b[|b| - 1];
      assert (256 * v + d) / 256 == v;
    }
  }

  function BeforeData(nonce: uint64, gasPrice: uint64, gasLimit: uint64, to: Address, value: uint64): seq<Item> {
    [Number(nonce), Number(gasPrice), Number(gasLimit), Text(to), Number(value)]
  }

  function AfterData(v: uint64, r: Scalar, s: Scalar): seq<Item> {
    [Number(v), Text(Trimmed(r)), Text(Trimmed(s))]
  }

  function SignedFields(nonce: uint64, gasPrice: uint64, gasLimit: uint64, to: Address, value: uint64,
                        data: seq<byte>, v: uint64, r: Scalar, s: Scalar): seq<Item>
  {
    BeforeData(nonce, gasPrice, gasLimit, to, value) + ([Text(data)] + AfterData(v, r, s))
  }

  predicate Small(x: Item) {
    Fits(x) && Length(x) <= 33
  }

  lemma {:induction false} AllSmall(xs: seq<Item>)
    requires forall i :: 0 <= i < |xs| ==> Small(xs[i])
    ensures FitAll(xs) && LengthAll(xs) <= 33 * |xs|
  {
    if xs != [] {
      assert forall i :: 0 <= i < |xs| - 1 ==> xs[1..][i] == xs[i + 1];
      AllSmall(xs[1..]);
      assert Small(xs[0]);
    }
  }

  lemma {:induction false} EncodeAllAt(xs: seq<Item>, i: nat)
    requires FitAll(xs) && i < |xs|
    ensures Fits(xs[i]) && EncodeAll(xs)[i] == Encode(xs[i])
  {
    if i > 0 {
      EncodeAllAt(xs[1..], i - 1);
    }
  }

  lemma {:induction false} LengthSplit(xs: seq<Item>, ys: seq<Item>)
    requires FitAll(xs) && FitAll(ys)
    ensures FitAll(xs + ys) && LengthAll(xs + ys) == LengthAll(xs) + LengthAll(ys)
  {
    if xs == [] {
      assert xs + ys == ys;
    } else {
      LengthSplit(xs[1..], ys);
      assert (xs + ys)[1..] == xs[1..] + ys;
    }
  }

  lemma NumberIsSmall(x: uint64)
    ensures Small(Number(x))
  {
    SizeBytes(x);
  }

  lemma BeforeDataSmall(nonce: uint64, gasPrice: uint64, gasLimit: uint64, to: Address, value: uint64)
    ensures var xs := BeforeData(nonce, gasPrice, gasLimit, to, value);
            FitAll(xs) && LengthAll(xs) <= 165
  {
    NumberIsSmall(nonce);
    NumberIsSmall(gasPrice);
    NumberIsSmall(gasLimit);
    NumberIsSmall(value);
    AllSmall(BeforeData(nonce, gasPrice, gasLimit, to, value));
  }

  lemma AfterDataSmall(v: uint64, r: Scalar, s: Scalar)
    ensures FitAll(AfterData(v, r, s)) && LengthAll(AfterData(v, r, s)) <= 99
  {
    NumberIsSmall(v);
    AllSmall(AfterData(v, r, s));
  }

  lemma SignedFits(nonce: uint64, gasPrice: uint64, gasLimit: uint64, to: Address, value: uint64,
                   data: seq<byte>, v: uint64, r: Scalar, s: Scalar)
    requires |data| <= MAX_SLICE
    ensures Fits(List(SignedFields(nonce, gasPrice, gasLimit, to, value, data, v, r, s)))
  {
    BeforeDataSmall(nonce, gasPrice, gasLimit, to, value);
    AfterDataSmall(v, r, s);
    SizeBytes(|data|);
    StreamCons(Text(data), AfterData(v, r, s));
    LengthSplit(BeforeData(nonce, gasPrice, gasLimit, to, value), [Text(data)] + AfterData(v, r, s));
  }

  ghost predicate Encodes(x: Item, b: seq<byte>) {
    Fits(x) && b == Encode(x)
  }

  lemma EncodeEach(xs: seq<Item>, items: seq<seq<byte>>)
    requires |xs| == |items| && FitAll(xs) && forall i :: 0 <= i < |xs| ==> Encodes(xs[i], items[i])
    ensures EncodeAll(xs) == items
  {
    forall i | 0 <= i < |xs|
      ensures EncodeAll(xs)[i] == items[i]
    {
      EncodeAllAt(xs, i);
      assert Encodes(xs[i], items[i]);
    }
  }

  lemma EncodeNine(x0: Item, x1: Item, x2: Item, x3: Item, x4: Item, x5: Item, x6: Item, x7: Item, x8: Item,
                   items: seq<seq<byte>>)
    requires |items| == 9 && FitAll([x0, x1, x2, x3, x4] + ([x5] + [x6, x7, x8]))
    requires Encodes(x0, items[0]) && Encodes(x1, items[1]) && Encodes(x2, items[2])
    requires Encodes(x3, items[3]) && Encodes(x4, items[4]) && Encodes(x5, items[5])
    requires Encodes(x6, items[6]) && Encodes(x7, items[7]) && Encodes(x8, items[8])
    ensures EncodeAll([x0, x1, x2, x3, x4] + ([x5] + [x6, x7, x8])) == items
  {
    var xs := [x0, x1, x2, x3, x4] + ([x5] + [x6, x7, x8]);
    assert xs == [x0, x1, x2, x3, x4, x5, x6, x7, x8];
    EncodeEach(xs, items);
  }

  /** The signed transaction by generic RLP. */
  function SignedRlp(nonce: uint64, gasPrice: uint64, gasLimit: uint64, to: Address, value: uint64,
                     data: seq<byte>, v: uint64, r: Scalar, s: Scalar): seq<byte>
    requires |data| <= MAX_SLICE
  {
    SignedFits(nonce, gasPrice, gasLimit, to, value, data, v, r, s);
    Encode(List(SignedFields(nonce, gasPrice, gasLimit, to, value, data, v, r, s)))
  }

  method EncodeNumber(x: uint64) returns (r: seq<byte>)
    ensures Encodes(Number(x), r)
  {
    r := RlpUint(x);
  }

  method EncodeScalar(s: Scalar) returns (r: seq<byte>)
    ensures Encodes(Text(Trimmed(s)), r)
  {
    r := RlpTrimmed(s);
  }

  lemma SignedItems(nonce: uint64, gasPrice: uint64, gasLimit: uint64, to: Address, value: uint64,
                    data: seq<byte>, v: uint64, r: Scalar, s: Scalar, items: seq<seq<byte>>)
    requires |data| <= MAX_SLICE && |items| == 9
    requires Encodes(Number(nonce), items[0]) && Encodes(Number(gasPrice), items[1])
    requires Encodes(Number(gasLimit), items[2]) && Encodes(Text(to), items[3])
    requires Encodes(Number(value), items[4]) && Encodes(Text(data), items[5]) && Encodes(Number(v), items[6])
    requires Encodes(Text(Trimmed(r)), items[7]) && Encodes(Text(Trimmed(s)), items[8])
    ensures |Concat(items)| < U64
    ensures ListRlp(items) == SignedRlp(nonce, gasPrice, gasLimit, to, value, data, v, r, s)
  {
    SignedFits(nonce, gasPrice, gasLimit, to, value, data, v, r, s);
    ConcatLength(SignedFields(nonce, gasPrice, gasLimit, to, value, data, v, r, s));
    EncodeNine(Number(nonce), Number(gasPrice), Number(gasLimit), Text(to), Number(value), Text(data),
               Number(v), Text(Trimmed(r)), Text(Trimmed(s)), items);
  }

  /** `encode_legacy_tx_signed`. */
  method EncodeSigned(nonce: uint64, gasPrice: uint64, gasLimit: uint64, to: Address, value: uint64,
                      data: seq<byte>, v: uint64, r: Scalar, s: Scalar) returns (out: seq<byte>)
    requires |data| <= MAX_SLICE
    ensures out == SignedRlp(nonce, gasPrice, gasLimit, to, value, data, v, r, s)
  {
    var nonceRlp := EncodeNumber(nonce);
    var priceRlp := EncodeNumber(gasPrice);
    var limitRlp := EncodeNumber(gasLimit);
    var toRlp := RlpBytes(to);
    var valueRlp := EncodeNumber(value);
    var dataRlp := RlpBytes(data);
    var vRlp := EncodeNumber(v);
    var rRlp := EncodeScalar(r);
    var sRlp := EncodeScalar(s);
    var items := [nonceRlp, priceRlp, limitRlp, toRlp, valueRlp, dataRlp, vRlp, rRlp, sRlp];
    SignedItems(nonce, gasPrice, gasLimit, to, value, data, v, r, s, items);
    out := RlpList(items);
  }

  /** Any decoder of generic RLP reads back exactly the fields that were signed. */
  lemma SignedReadsBack(nonce: uint64, gasPrice: uint64, gasLimit: uint64, to: Address, value: uint64,
                        data: seq<byte>, v: uint64, r: Scalar, s: Scalar, rest: seq<byte>)
    requires |data| <= MAX_SLICE
    ensures Decode(SignedRlp(nonce, gasPrice, gasLimit, to, value, data, v, r, s) + rest) ==
            Some((List(SignedFields(nonce, gasPrice, gasLimit, to, value, data, v, r, s)), rest))
  {
    SignedFits(nonce, gasPrice, gasLimit, to, value, data, v, r, s);
    DecodeEncode(List(SignedFields(nonce, gasPrice, gasLimit, to, value, data, v, r, s)), rest);
  }

  /** A signature scalar is written as the canonical integer exactly when it is not zero. */
  lemma TrimmedCanonicalIff(s: Scalar)
    ensures Trimmed(s) == Minimal(ValueOf(s)) <==> exists i :: 0 <= i < 32 && s[i] != 0
  {
    ZeroValue(s);
    MinimalValue(ValueOf(s));
  }

  lemma {:induction false} ZeroValue(b: seq<byte>)
    ensures ValueOf(b) == 0 <==> forall i :: 0 <= i < |b| ==> b[i] == 0
  {
    if b != [] {
      var n := |b| - 1;
      ZeroValue(b[..n]);
      assert forall i :: 0 <= i < n ==> b[..n][i] == b[i];
    }
  }

  // ---- The bytes ------------------------------------------------------------

  /**
   Byte for byte what is hashed for signing: a list of 53 bytes holding the low
   24 bits of the nonce, the gas price 1 000 000 000, the gas limit 220 000, the
   receiver, no value, twelve bytes of payload, the chain 8453 and two empty
   strings.
   */
  lemma PreimageIs(nonce: uint64, to: Address, blockNumber: uint64, spreadBps: uint32)
    ensures FastBytes(nonce, to, blockNumber, spreadBps) ==
            [0xC0 + 53] + [0x83, nonce / 0x1_0000 % 0x100, nonce / 0x100 % 0x100, nonce % 0x100]
            + [0x84, 0x3B, 0x9A, 0xCA, 0x00] + [0x83, 0x03, 0x5B, 0x60] + ([0x94] + to) + [0x80]
            + ([0x8C] + (Fixed(blockNumber, 8) + Fixed(spreadBps, 4))) + [0x82, 0x21, 0x05] + [0x80, 0x80]
  {
    FixedDigits(nonce);
    FixedDigits(1_000_000_000);
    FixedDigits(220_000);
    assert [0x83] + Fixed(nonce, 3) == [0x83, nonce / 0x1_0000 % 0x100, nonce / 0x100 % 0x100, nonce % 0x100];
    assert [0x84] + Fixed(GAS_PRICE, 4) == [0x84, 0x3B, 0x9A, 0xCA, 0x00];
    assert [0x83] + Fixed(GAS_LIMIT, 3) == [0x83, 0x03, 0x5B, 0x60];
  }

  /** A string that stands for a number: big-endian, without leading zeros. */
  ghost predicate Stands(x: Item, n: nat) {
    x.Text? && Stripped(x.bytes) && ValueOf(x.bytes) == n
  }

  lemma NumberStands(x: uint64)
    ensures Stands(Number(x), x)
  {
    MinimalStripped(x);
    MinimalValue(x);
  }

  /** The nine signed fields in their order, each the number or the string it was given. */
  lemma SignedAre(nonce: uint64, gasPrice: uint64, gasLimit: uint64, to: Address, value: uint64,
                  data: seq<byte>, v: uint64, r: Scalar, s: Scalar)
    ensures var fs := SignedFields(nonce, gasPrice, gasLimit, to, value, data, v, r, s);
      && |fs| == 9 && Stands(fs[0], nonce) && Stands(fs[1], gasPrice) && Stands(fs[2], gasLimit)
      && fs[3] == Text(to) && Stands(fs[4], value) && fs[5] == Text(data) && Stands(fs[6], v)
      && fs[7].Text? && ValueOf(fs[7].bytes) == ValueOf(r) && fs[8].Text? && ValueOf(fs[8].bytes) == ValueOf(s)
  {
    NumberStands(nonce);
    NumberStands(gasPrice);
    NumberStands(gasLimit);
    NumberStands(value);
    NumberStands(v);
    TrimmedStands(r);
    TrimmedStands(s);
  }

  lemma TrimmedStands(s: Scalar)
    ensures ValueOf(Trimmed(s)) == ValueOf(s)
  {
    MinimalValue(ValueOf(s));
    ValueAppend([], 0);
    assert [] + [0] == [0];
  }
}
