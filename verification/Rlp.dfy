/**
 Recursive-length-prefix encoding as src/bin/hft_web3_bench.rs writes it
 (Appendix B of the Ethereum Yellow Paper), with a decoder to hold it against.
 */
module Rlp {
  import opened BigEndian
  import opened ByteCodec
  import opened Outcome


  // ---- The encoding ---------------------------------------------------------

  /** The length prefix of a string (`base` 0x80) or a list (`base` 0xC0). */
  function Prefix(base: byte, n: nat): seq<byte>
    requires (base == 0x80 || base == 0xC0) && n < U64
  {
    SizeBytes(n);
    if n <= 55 then [base + n] else [base + 55 + |Minimal(n)|] + Minimal(n)
  }

  lemma SizeBytes(n: nat)
    ensures n < U64 ==> |Minimal(n)| <= 8
    ensures n > 0 ==> |Minimal(n)| >= 1
  {
    Pow256Is8();
    MinimalLength(n, 8);
    MinimalLength(n, 0);
  }

  lemma Pow256Is8()
    ensures Pow256(8) == U64 && Pow256(4) == 0x1_0000_0000 && Pow256(3) == 0x100_0000 && Pow256(2) == 0x1_0000
  {
    assert Pow256(2) == 0x1_0000;
    assert Pow256(4) == 256 * Pow256(3);
    assert Pow256(6) == 256 * Pow256(5);
  }

  function StringRlp(b: seq<byte>): seq<byte>
    requires |b| < U64
  {
    if |b| == 1 && b[0] < 0x80 then b else Prefix(0x80, |b|) + b
  }

  function Concat(items: seq<seq<byte>>): seq<byte> {
    if items == [] then [] else items[0] + Concat(items[1..])
  }

  lemma {:induction false} ConcatAppend(items: seq<seq<byte>>, last: seq<byte>)
    ensures Concat(items + [last]) == Concat(items) + last
  {
    if items == [] {
      assert [last][1..] == [];
    } else {
      ConcatAppend(items[1..], last);
      assert (items + [last])[1..] == items[1..] + [last];
    }
  }

  function ListRlp(items: seq<seq<byte>>): seq<byte>
    requires |Concat(items)| < U64
  {
    Prefix(0xC0, |Concat(items)|) + Concat(items)
  }

  /** `length_bytes`. */
  method LengthBytes(len: nat) returns (r: seq<byte>)
    requires len < U64
    ensures r == if len == 0 then [0] else Minimal(len)
  {
    Pow256Is8();
    FixedValue(len, 8);
    r := StripZeros(Fixed(len, 8));
    if r == [] {
      MinimalValue(len);
      r := [0];
    }
  }

  method LengthPrefix(base: byte, n: nat) returns (r: seq<byte>)
    requires (base == 0x80 || base == 0xC0) && n < U64
    ensures r == Prefix(base, n)
  {
    if n <= 55 {
      return [base + n];
    }
    SizeBytes(n);
    var size := LengthBytes(n);
    r := [base + 55 + |size|] + size;
  }

  /** `rlp_bytes`. */
  method RlpBytes(b: seq<byte>) returns (r: seq<byte>)
    requires |b| < U64
    ensures r == StringRlp(b)
  {
    if |b| == 1 && b[0] < 0x80 {
      return [b[0]];
    }
    var prefix := LengthPrefix(0x80, |b|);
    r := prefix + b;
  }

  /** `rlp_uint`: a number is the string of its minimal bytes, zero the empty string. */
  method RlpUint(value: nat) returns (r: seq<byte>)
    requires value < U64
    ensures |Minimal(value)| <= 8 && r == StringRlp(Minimal(value))
  {
    SizeBytes(value);
    if value == 0 {
      return [0x80];
    }
    Pow256Is8();
    FixedValue(value, 8);
    var bytes := StripZeros(Fixed(value, 8));
    r := RlpBytes(bytes);
  }

  /** `rlp_big_endian_trimmed`: as `rlp_uint`, except that zeros leave one zero byte. */
  method RlpTrimmed(b: seq<byte>) returns (r: seq<byte>)
    requires |b| < U64
    ensures var m := Minimal(ValueOf(b));
            |m| <= |b| && r == if m == [] && b != [] then StringRlp([0]) else StringRlp(m)
  {
    var first := 0;
    while first < |b| && b[first] == 0
      invariant first <= |b| && ValueOf(b[first..]) == ValueOf(b)
      invariant first > 0 ==> b[first - 1] == 0
    {
      LeadingZero(b[first + 1..]);
      assert b[first..] == [0] + b[first + 1..];
      first := first + 1;
    }
    StrippedIsMinimal(b[first..]);
    if first == |b| && b != [] {
      first := |b| - 1;
      assert b[first..] == [0];
    }
    r := RlpBytes(b[first..]);
  }

  /** `rlp_list`. */
  method RlpList(items: seq<seq<byte>>) returns (r: seq<byte>)
    requires |Concat(items)| < U64
    ensures r == ListRlp(items)
  {
    var payload: seq<byte> := [];
    for i := 0 to |items|
      invariant payload == Concat(items[..i])
    {
      ConcatAppend(items[..i], items[i]);
      assert items[..i + 1] == items[..i] + [items[i]];
      payload := payload + items[i];
    }
    assert items[..|items|] == items;
    var prefix := LengthPrefix(0xC0, |payload|);
    r := prefix + payload;
  }

  // ---- Nested items ---------------------------------------------------------

  datatype Item = Text(bytes: seq<byte>) | List(items: seq<Item>)

  function PrefixLength(n: nat): nat {
    if n <= 55 then 1 else 1 + |Minimal(n)|
  }

  function Length(x: Item): nat {
    match x
    case Text(b) => if |b| == 1 && b[0] < 0x80 then 1 else PrefixLength(|b|) + |b|
    case List(xs) => PrefixLength(LengthAll(xs)) + LengthAll(xs)
  }

  function LengthAll(xs: seq<Item>): nat {
    if xs == [] then 0 else Length(xs[0]) + LengthAll(xs[1..])
  }

  /** Every string and every list payload is shorter than 2^64. */
  predicate Fits(x: Item) {
    match x
    case Text(b) => |b| < U64
    case List(xs) => LengthAll(xs) < U64 && FitAll(xs)
  }

  predicate FitAll(xs: seq<Item>) {
    xs == [] || (Fits(xs[0]) && FitAll(xs[1..]))
  }

  function Encode(x: Item): (r: seq<byte>)
    requires Fits(x)
    ensures |r| == Length(x)
  {
    match x
    case Text(b) => StringRlp(b)
    case List(xs) =>
      ConcatLength(xs);
      ListRlp(EncodeAll(xs))
  }

  function EncodeAll(xs: seq<Item>): (r: seq<seq<byte>>)
    requires FitAll(xs)
    ensures |r| == |xs|
    decreases xs, 0
  {
    if xs == [] then [] else [Encode(xs[0])] + EncodeAll(xs[1..])
  }

  lemma ConcatLength(xs: seq<Item>)
    requires FitAll(xs)
    ensures |Concat(EncodeAll(xs))| == LengthAll(xs)
    decreases xs, 1
  {
    if xs != [] {
      ConcatLength(xs[1..]);
      assert ([Encode(xs[0])] + EncodeAll(xs[1..]))[1..] == EncodeAll(xs[1..]);
    }
  }

  // ---- Decoding -------------------------------------------------------------


  /** What a prefix announces: a list or a string, where its payload starts, and its length. */
  datatype Head = Head(list: bool, start: nat, size: nat)

  function DecodeHead(b: seq<byte>): Option<Head> {
    if b == [] then None else
      var first: int := b[0];
      if first < 0x80 then Some(Head(false, 0, 1))
      else
        var list := first >= 0xC0;
        var n := first - (if list then 0xC0 else 0x80);
        if n <= 55 then Some(Head(list, 1, n))
        else if 1 + (n - 55) > |b| then None
        else Some(Head(list, 1 + (n - 55), ValueOf(b[1..1 + (n - 55)])))
  }

  /** Reads one item and returns what follows it. */
  function Decode(b: seq<byte>): (r: Option<(Item, seq<byte>)>)
    ensures r.Some? ==> |r.value.1| < |b|
    decreases |b|, 0
  {
    var head := DecodeHead(b);
    if head.None? || head.value.start + head.value.size > |b| then None
    else
      var h := head.value;
      var end := h.start + h.size;
      if !h.list then Some((Text(b[h.start..end]), b[end..]))
      else
        var items := DecodeAll(b[h.start..end]);
        if items.None? then None else Some((List(items.value), b[end..]))
  }

  /** Reads items until nothing is left. */
  function DecodeAll(b: seq<byte>): Option<seq<Item>>
    decreases |b|, 1
  {
    if b == [] then Some([])
    else
      var first := Decode(b);
      if first.None? then None
      else
        var others := DecodeAll(first.value.1);
        if others.None? then None else Some([first.value.0] + others.value)
  }

  lemma PrefixReads(base: byte, n: nat, rest: seq<byte>)
    requires (base == 0x80 || base == 0xC0) && n < U64
    ensures DecodeHead(Prefix(base, n) + rest) == Some(Head(base == 0xC0, |Prefix(base, n)|, n))
  {
    SizeBytes(n);
    var b := Prefix(base, n) + rest;
    if n > 55 {
      var k := |Minimal(n)|;
      assert b[1..1 + k] == Minimal(n);
      MinimalValue(n);
    }
  }

  lemma StringReads(bytes: seq<byte>, rest: seq<byte>)
    requires |bytes| < U64
    ensures Decode(StringRlp(bytes) + rest) == Some((Text(bytes), rest))
  {
    var b := StringRlp(bytes) + rest;
    if |bytes| == 1 && bytes[0] < 0x80 {
      assert b[0..1] == bytes && b[1..] == rest;
    } else {
      PrefixReads(0x80, |bytes|, bytes + rest);
      assert b == Prefix(0x80, |bytes|) + (bytes + rest);
      var start := |Prefix(0x80, |bytes|)|;
      assert b[start..start + |bytes|] == bytes && b[start + |bytes|..] == rest;
    }
  }

  lemma ListReads(xs: seq<Item>, payload: seq<byte>, rest: seq<byte>)
    requires |payload| < U64 && DecodeAll(payload) == Some(xs)
    ensures Decode(Prefix(0xC0, |payload|) + payload + rest) == Some((List(xs), rest))
  {
    var b := Prefix(0xC0, |payload|) + payload + rest;
    PrefixReads(0xC0, |payload|, payload + rest);
    assert b == Prefix(0xC0, |payload|) + (payload + rest);
    var start := |Prefix(0xC0, |payload|)|;
    assert b[start..start + |payload|] == payload && b[start + |payload|..] == rest;
  }

  /** Decoding recovers any item from its encoding, whatever bytes follow. */
  lemma {:induction false} DecodeEncode(x: Item, rest: seq<byte>)
    requires Fits(x)
    ensures Decode(Encode(x) + rest) == Some((x, rest))
  {
    match x
    case Text(b) =>
      StringReads(b, rest);
    case List(xs) =>
      ConcatLength(xs);
      DecodeEncodeAll(xs);
      ListReads(xs, Concat(EncodeAll(xs)), rest);
  }

  lemma {:induction false} DecodeEncodeAll(xs: seq<Item>)
    requires FitAll(xs)
    ensures DecodeAll(Concat(EncodeAll(xs))) == Some(xs)
  {
    if xs != [] {
      var others := Concat(EncodeAll(xs[1..]));
      DecodeEncode(xs[0], others);
      DecodeEncodeAll(xs[1..]);
      assert EncodeAll(xs)[1..] == EncodeAll(xs[1..]);
      assert Concat(EncodeAll(xs)) == Encode(xs[0]) + others;
      assert [xs[0]] + xs[1..] == xs;
    }
  }

  /** No encoding is a prefix of another: the split of a stream into items is unique. */
  lemma UniquelyDecodable(x: Item, y: Item, xRest: seq<byte>, yRest: seq<byte>)
    requires Fits(x) && Fits(y) && Encode(x) + xRest == Encode(y) + yRest
    ensures x == y && xRest == yRest
  {
    DecodeEncode(x, xRest);
    DecodeEncode(y, yRest);
  }

  // ---- The bytes ------------------------------------------------------------

  /**
   A byte below 0x80 is its own encoding; a string of up to 55 bytes follows one
   byte counted from 0x80; before a longer one stands, counted from 0xB7, how many
   bytes its length takes, and its length, most significant byte first.
   */
  lemma StringIs(b: seq<byte>, size: seq<byte>)
    requires |b| < U64
    ensures |b| == 1 && b[0] <= 0x7F ==> StringRlp(b) == b
    ensures |b| <= 55 && !(|b| == 1 && b[0] <= 0x7F) ==> StringRlp(b) == [0x80 + |b|] + b
    ensures |b| > 55 && Stripped(size) && ValueOf(size) == |b| ==>
              |size| <= 8 && StringRlp(b) == [0xB7 + |size|] + size + b
  {
    SizeBytes(|b|);
    if Stripped(size) {
      StrippedIsMinimal(size);
    }
  }

  /** Lists likewise, counted from 0xC0 and 0xF7. */
  lemma ListIs(items: seq<seq<byte>>, size: seq<byte>)
    requires |Concat(items)| < U64
    ensures |Concat(items)| <= 55 ==> ListRlp(items) == [0xC0 + |Concat(items)|] + Concat(items)
    ensures |Concat(items)| > 55 && Stripped(size) && ValueOf(size) == |Concat(items)| ==>
              |size| <= 8 && ListRlp(items) == [0xF7 + |size|] + size + Concat(items)
  {
    SizeBytes(|Concat(items)|);
    if Stripped(size) {
      StrippedIsMinimal(size);
    }
  }
}
