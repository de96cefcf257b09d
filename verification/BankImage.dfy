/** The CRC-protected learning bank of src/bin/radnet_tools.rs. */
module BankImage {
  import opened ByteCodec
  import opened Crc32
  import opened Outcome

  const BANK_ADDR: nat := 0x1F_0000
  const BANK_SIZE: nat := 0x20_0000
  const HEADER_SIZE: nat := 4096
  const MAX_PAYLOAD: nat := 0x1F_F000
  const MAGIC: uint32 := 0x4C52_4E42
  const VERSION: uint32 := 1

  datatype Sector = Sector(name: string, start: nat)

  /** The protected 4 KiB flash sectors, in the order they are checked. */
  const SECTORS: seq<Sector> := [
    Sector("state", 0x3F_F000),
    Sector("history", 0x3F_E000),
    Sector("rule_archive", 0x3F_D000),
    Sector("source_archive", 0x3F_C000),
    Sector("lexicon", 0x3F_B000)
  ]

  datatype Error =
    | OverlapsSector(name: string)
    | PayloadTooLarge
    | WrongImageSize
    | BadMagic(found: uint32)
    | BadVersion(found: uint32)
    | LengthTooLarge
    | CrcMismatch

  datatype Header = Header(payloadLen: uint32, payloadCrc: uint32, createdUnix: uint32)
  datatype Bank = Bank(header: Header, payload: seq<bv8>)

  // ---- Flash layout ---------------------------------------------------------

  predicate Overlaps(a0: nat, a1: nat, b0: nat, b1: nat) {
    !(a1 < b0 || b1 < a0)
  }

  ghost predicate InBank(x: nat) {
    BANK_ADDR <= x < BANK_ADDR + BANK_SIZE
  }

  ghost predicate InSector(x: nat, sector: Sector) {
    sector.start <= x < sector.start + 4096
  }

  /** Some address lies both in the bank and in the sector. */
  ghost predicate Endangers(sector: Sector) {
    exists x: nat :: InBank(x) && InSector(x, sector)
  }

  /** A sector is endangered exactly if its 4096 bytes reach into 0x1F_0000 to 0x3E_FFFF. */
  lemma EndangeredIff(sector: Sector)
    ensures Endangers(sector) <==> sector.start + 4096 > 0x1F_0000 && sector.start < 0x3F_0000
  {
    var x := if sector.start < BANK_ADDR then BANK_ADDR else sector.start;
    assert InBank(x) && InSector(x, sector) <==> sector.start + 4096 > 0x1F_0000 && sector.start < 0x3F_0000;
  }

  /** The end-point comparison says whether some address is shared. */
  lemma OverlapEndangers(sector: Sector)
    ensures Overlaps(BANK_ADDR, BANK_ADDR + BANK_SIZE - 1, sector.start, sector.start + 4095) <==> Endangers(sector)
  {
    if Overlaps(BANK_ADDR, BANK_ADDR + BANK_SIZE - 1, sector.start, sector.start + 4095) {
      var x := if sector.start <= BANK_ADDR then BANK_ADDR else sector.start;
      assert InBank(x) && InSector(x, sector);
    }
  }

  /** `validate_layout`, over any list of sectors. */
  method ValidateLayout(sectors: seq<Sector>) returns (r: Result<(), Error>)
    ensures r.Ok? <==> forall k :: 0 <= k < |sectors| ==> !Endangers(sectors[k])
    ensures r.Err? ==> exists k :: 0 <= k < |sectors| && Endangers(sectors[k]) &&
                                   r.error == OverlapsSector(sectors[k].name)
  {
    var bank0, bank1 := BANK_ADDR, BANK_ADDR + BANK_SIZE - 1;
    for k := 0 to |sectors|
      invariant forall j :: 0 <= j < k ==> !Endangers(sectors[j])
    {
      var p0 := sectors[k].start;
      var p1 := p0 + 4095;
      OverlapEndangers(sectors[k]);
      if Overlaps(bank0, bank1, p0, p1) {
        return Err(OverlapsSector(sectors[k].name));
      }
    }
    r := Ok(());
  }

  /** The bank stays clear of every protected sector. */
  lemma LayoutIsSafe(k: nat)
    requires k < |SECTORS|
    ensures !Endangers(SECTORS[k])
  {
    assert SECTORS[k].start > BANK_ADDR + BANK_SIZE - 1;
  }

  // ---- Words and bytes ------------------------------------------------------

  function WordAt(image: seq<byte>, offset: nat): uint32
    requires offset + 4 <= |image|
  {
    U32Of(image[offset..offset + 4])
  }

  /** The CRC reads bytes as bit vectors. */
  function Octet(b: byte): bv8 {
    b as bv8
  }

  function Octets(bytes: seq<byte>): (r: seq<bv8>)
    ensures |r| == |bytes| && forall i :: 0 <= i < |r| ==> r[i] == Octet(bytes[i])
  {
    seq(|bytes|, i requires 0 <= i < |bytes| => Octet(bytes[i]))
  }

  function Stored(o: bv8): byte {
    o as int
  }

  function Store(octets: seq<bv8>): (r: seq<byte>)
    ensures |r| == |octets| && forall i :: 0 <= i < |r| ==> r[i] == Stored(octets[i])
  {
    seq(|octets|, i requires 0 <= i < |octets| => Stored(octets[i]))
  }

  lemma StoredRoundTrip(o: bv8)
    ensures Octet(Stored(o)) == o
  {
  }

  lemma StoreRoundTrip(octets: seq<bv8>)
    ensures Octets(Store(octets)) == octets
  {
    forall i | 0 <= i < |octets|
      ensures Octets(Store(octets))[i] == octets[i]
    {
      StoredRoundTrip(octets[i]);
    }
  }

  function CrcWord(payload: seq<bv8>): uint32 {
    Crc(payload) as int
  }

  lemma CrcWordExact(a: bv32, b: bv32)
    ensures a as int == b as int <==> a == b
  {
    assert (a as int) as bv32 == a;
    assert (b as int) as bv32 == b;
  }

  // ---- Building and parsing -------------------------------------------------

  function Zeros(n: nat): (r: seq<byte>)
    ensures |r| == n && forall i :: 0 <= i < n ==> r[i] == 0
  {
    seq(n, _ => 0)
  }

  function HeaderWords(h: Header): (r: seq<byte>)
    ensures |r| == 20
  {
    U32Le(MAGIC) + U32Le(VERSION) + U32Le(h.payloadLen) + U32Le(h.payloadCrc) + U32Le(h.createdUnix)
  }

  function HeaderOf(payload: seq<bv8>, createdUnix: uint32): Header
    requires |payload| <= MAX_PAYLOAD
  {
    Header(|payload|, CrcWord(payload), createdUnix)
  }

  /** A whole bank image. */
  function Image(payload: seq<bv8>, createdUnix: uint32): (r: seq<byte>)
    requires |payload| <= MAX_PAYLOAD
    ensures |r| == BANK_SIZE
  {
    HeaderWords(HeaderOf(payload, createdUnix)) + Zeros(HEADER_SIZE - 20)
    + Store(payload) + Zeros(MAX_PAYLOAD - |payload|)
  }

  /** What `parse_bank_image` decides, after the layout check. */
  function Parse(image: seq<byte>): Result<Bank, Error> {
    if |image| != BANK_SIZE then Err(WrongImageSize)
    else if WordAt(image, 0) != MAGIC then Err(BadMagic(WordAt(image, 0)))
    else if WordAt(image, 4) != VERSION then Err(BadVersion(WordAt(image, 4)))
    else if WordAt(image, 8) > MAX_PAYLOAD then Err(LengthTooLarge)
    else
      var payload := Octets(image[HEADER_SIZE..HEADER_SIZE + WordAt(image, 8)]);
      if CrcWord(payload) != WordAt(image, 12) then Err(CrcMismatch)
      else Ok(Bank(Header(WordAt(image, 8), WordAt(image, 12), WordAt(image, 16)), payload))
  }

  /** `write_u32`. */
  method WriteWord(image: array<byte>, offset: nat, x: uint32)
    requires offset + 4 <= image.Length
    modifies image
    ensures image[..] == old(image[..offset]) + U32Le(x) + old(image[offset + 4..])
  {
    var b := U32Le(x);
    image[offset] := b[0];
    image[offset + 1] := b[1];
    image[offset + 2] := b[2];
    image[offset + 3] := b[3];
  }

  /** Writes the five header words. */
  method WriteHeader(image: array<byte>, h: Header)
    requires image.Length == BANK_SIZE
    modifies image
    ensures image[..20] == HeaderWords(h)
    ensures forall i :: 20 <= i < BANK_SIZE ==> image[i] == old(image[i])
  {
    WriteWord(image, 0, MAGIC);
    WriteWord(image, 4, VERSION);
    assert image[..8] == U32Le(MAGIC) + U32Le(VERSION) && image[20..] == old(image[20..]);
    WriteWord(image, 8, h.payloadLen);
    WriteWord(image, 12, h.payloadCrc);
    assert image[..16] == U32Le(MAGIC) + U32Le(VERSION) + U32Le(h.payloadLen) + U32Le(h.payloadCrc);
    assert image[20..] == old(image[20..]);
    WriteWord(image, 16, h.createdUnix);
    assert image[20..] == old(image[20..]);
  }

  /** Copies the payload behind the header. */
  method WritePayload(image: array<byte>, payload: seq<bv8>)
    requires image.Length == BANK_SIZE && |payload| <= MAX_PAYLOAD
    modifies image
    ensures image[..] == old(image[..HEADER_SIZE]) + Store(payload) + old(image[HEADER_SIZE + |payload|..])
  {
    for i := 0 to |payload|
      invariant image[..HEADER_SIZE] == old(image[..HEADER_SIZE])
      invariant image[HEADER_SIZE..HEADER_SIZE + i] == Store(payload)[..i]
      invariant image[HEADER_SIZE + i..] == old(image[HEADER_SIZE + i..])
    {
      image[HEADER_SIZE + i] := Stored(payload[i]);
    }
    var end := HEADER_SIZE + |payload|;
    assert image[HEADER_SIZE..end] == Store(payload);
    assert image[end..] == old(image[end..]);
    assert image[..] == image[..HEADER_SIZE] + image[HEADER_SIZE..end] + image[end..];
  }

  /** `build_bank_image`. */
  method BuildBankImage(payload: seq<bv8>, createdUnix: uint32) returns (r: Result<array<byte>, Error>)
    ensures r.Ok? <==> |payload| <= MAX_PAYLOAD
    ensures r.Err? ==> r.error == PayloadTooLarge
    ensures r.Ok? ==> fresh(r.value) && r.value[..] == Image(payload, createdUnix)
  {
    var layout := ValidateLayout(SECTORS);
    if layout.Err? {
      forall k: nat | k < |SECTORS| {
        LayoutIsSafe(k);
      }
      assert false;
    }
    if |payload| > BANK_SIZE - HEADER_SIZE {
      return Err(PayloadTooLarge);
    }
    var crc := Checksum(payload);
    var image := new byte[BANK_SIZE](_ => 0);
    WriteHeader(image, Header(|payload|, crc as int, createdUnix));
    ghost var headed := image[..];
    WritePayload(image, payload);
    Assembled(HeaderWords(HeaderOf(payload, createdUnix)), headed, Store(payload));
    r := Ok(image);
  }

  /** A header, the payload behind it, and zeros everywhere else. */
  lemma Assembled(words: seq<byte>, headed: seq<byte>, payload: seq<byte>)
    requires |words| == 20 && |headed| == BANK_SIZE && |payload| <= MAX_PAYLOAD
    requires headed[..20] == words && forall i :: 20 <= i < BANK_SIZE ==> headed[i] == 0
    ensures headed[..HEADER_SIZE] + payload + headed[HEADER_SIZE + |payload|..] ==
            words + Zeros(HEADER_SIZE - 20) + payload + Zeros(MAX_PAYLOAD - |payload|)
  {
    assert headed[..HEADER_SIZE] == words + Zeros(HEADER_SIZE - 20);
    assert headed[HEADER_SIZE + |payload|..] == Zeros(MAX_PAYLOAD - |payload|);
  }

  /** `parse_bank_image`. */
  method ParseBankImage(image: seq<byte>) returns (r: Result<Bank, Error>)
    ensures r == Parse(image)
  {
    var layout := ValidateLayout(SECTORS);
    if layout.Err? {
      forall k: nat | k < |SECTORS| {
        LayoutIsSafe(k);
      }
      assert false;
    }
    if |image| != BANK_SIZE {
      return Err(WrongImageSize);
    }
    var magic, version := WordAt(image, 0), WordAt(image, 4);
    if magic != MAGIC {
      return Err(BadMagic(magic));
    }
    if version != VERSION {
      return Err(BadVersion(version));
    }
    var payloadLen, payloadCrc, createdUnix := WordAt(image, 8), WordAt(image, 12), WordAt(image, 16);
    if payloadLen > BANK_SIZE - HEADER_SIZE {
      return Err(LengthTooLarge);
    }
    var payload := Octets(image[HEADER_SIZE..HEADER_SIZE + payloadLen]);
    var crc := Checksum(payload);
    if crc as int != payloadCrc {
      return Err(CrcMismatch);
    }
    r := Ok(Bank(Header(payloadLen, payloadCrc, createdUnix), payload));
  }

  // ---- Round trip and corruption --------------------------------------------

  /** The five header words of `image` are `h`'s. */
  ghost predicate Carries(image: seq<byte>, h: Header) {
    |image| == BANK_SIZE && image[..20] == HeaderWords(h)
  }

  lemma HeaderReadsBack(image: seq<byte>, h: Header)
    requires Carries(image, h)
    ensures WordAt(image, 0) == MAGIC && WordAt(image, 4) == VERSION
    ensures WordAt(image, 8) == h.payloadLen && WordAt(image, 12) == h.payloadCrc
    ensures WordAt(image, 16) == h.createdUnix
  {
    var w := HeaderWords(h);
    assert image[0..4] == w[0..4] == U32Le(MAGIC);
    assert image[4..8] == w[4..8] == U32Le(VERSION);
    assert image[8..12] == w[8..12] == U32Le(h.payloadLen);
    assert image[12..16] == w[12..16] == U32Le(h.payloadCrc);
    assert image[16..20] == w[16..20] == U32Le(h.createdUnix);
    U32RoundTrip(MAGIC);
    U32RoundTrip(VERSION);
    U32RoundTrip(h.payloadLen);
    U32RoundTrip(h.payloadCrc);
    U32RoundTrip(h.createdUnix);
  }

  lemma ImageCarries(payload: seq<bv8>, createdUnix: uint32)
    requires |payload| <= MAX_PAYLOAD
    ensures Carries(Image(payload, createdUnix), HeaderOf(payload, createdUnix))
    ensures Octets(Image(payload, createdUnix)[HEADER_SIZE..HEADER_SIZE + |payload|]) == payload
  {
    assert Image(payload, createdUnix)[HEADER_SIZE..HEADER_SIZE + |payload|] == Store(payload);
    StoreRoundTrip(payload);
  }

  /** The bytes now standing where `payload` was written. */
  function Found(image: seq<byte>, payload: seq<bv8>): (r: seq<bv8>)
    requires |image| == BANK_SIZE && |payload| <= MAX_PAYLOAD
    ensures |r| == |payload|
  {
    Octets(image[HEADER_SIZE..HEADER_SIZE + |payload|])
  }

  lemma ParseCarried(image: seq<byte>, h: Header)
    requires Carries(image, h) && h.payloadLen <= MAX_PAYLOAD
    ensures var found := Octets(image[HEADER_SIZE..HEADER_SIZE + h.payloadLen]);
            Parse(image) == if CrcWord(found) == h.payloadCrc then Ok(Bank(h, found)) else Err(CrcMismatch)
  {
    HeaderReadsBack(image, h);
  }

  lemma SameCrcWord(x: seq<bv8>, y: seq<bv8>)
    requires |x| == |y|
    ensures CrcWord(x) == CrcWord(y) <==> Invisible(XorBytes(x, y))
  {
    UndetectedIff(x, y);
    CrcWordExact(Crc(x), Crc(y));
  }

  /**
   Whatever else of a built image is overwritten, as long as its five header
   words stand, parsing accepts it exactly when the payload's error pattern is
   invisible to the CRC; and it then returns the payload it found.
   */
  lemma CorruptionDecided(payload: seq<bv8>, createdUnix: uint32, image: seq<byte>)
    requires |payload| <= MAX_PAYLOAD && Carries(image, HeaderOf(payload, createdUnix))
    ensures var found := Found(image, payload);
            Parse(image) == if Invisible(XorBytes(payload, found))
                            then Ok(Bank(HeaderOf(payload, createdUnix), found))
                            else Err(CrcMismatch)
  {
    ParseCarried(image, HeaderOf(payload, createdUnix));
    SameCrcWord(payload, Found(image, payload));
  }

  /** Parsing undoes building. */
  lemma ParseUndoesBuild(payload: seq<bv8>, createdUnix: uint32)
    requires |payload| <= MAX_PAYLOAD
    ensures Parse(Image(payload, createdUnix)) == Ok(Bank(HeaderOf(payload, createdUnix), payload))
  {
    ImageCarries(payload, createdUnix);
    ParseCarried(Image(payload, createdUnix), HeaderOf(payload, createdUnix));
  }

  /**
   A payload altered only within four consecutive bytes is always rejected,
   whatever happens to the padding around it.
   */
  lemma BurstRejected(payload: seq<bv8>, createdUnix: uint32, image: seq<byte>, at: nat)
    requires |payload| <= MAX_PAYLOAD && Carries(image, HeaderOf(payload, createdUnix))
    requires DifferWithin(payload, Found(image, payload), at)
    ensures Parse(image).Err? <==> payload != Found(image, payload)
  {
    CorruptionDecided(payload, createdUnix, image);
    UndetectedIff(payload, Found(image, payload));
    BurstDetected(payload, Found(image, payload), at);
  }

  /** The creation time is not protected: any other one parses with the same payload. */
  lemma CreationTimeUnprotected(payload: seq<bv8>, created: uint32, forged: uint32)
    requires |payload| <= MAX_PAYLOAD
    ensures var image := Image(payload, created)[..16] + U32Le(forged) + Image(payload, created)[20..];
            Parse(image) == Ok(Bank(HeaderOf(payload, forged), payload))
  {
    var image := Image(payload, created)[..16] + U32Le(forged) + Image(payload, created)[20..];
    assert image == Image(payload, forged);
    ParseUndoesBuild(payload, forged);
  }

  // ---- The bytes of an image ------------------------------------------------

  lemma WordBytes(x: uint32, b0: byte, b1: byte, b2: byte, b3: byte)
    requires x == b0 as int + 0x100 * b1 as int + 0x1_0000 * b2 as int + 0x100_0000 * b3 as int
    ensures U32Le(x) == [b0, b1, b2, b3]
  {
    assert x / 256 == b1 as int + 0x100 * b2 as int + 0x1_0000 * b3 as int;
    assert x / 65536 == b2 as int + 0x100 * b3 as int;
  }

  /**
   A bank image is two megabytes: the tag `BNRL` and version 1, the payload's
   length, CRC and creation time, least significant bytes first, zeros up to
   byte 4096, the payload, and zeros again.
   */
  lemma ImageIs(payload: seq<bv8>, createdUnix: uint32)
    requires |payload| <= 0x20_0000 - 4096
    ensures var image := Image(payload, createdUnix);
      && |image| == 0x20_0000
      && image[..8] == [0x42, 0x4E, 0x52, 0x4C, 1, 0, 0, 0]
      && image[8..12] == U32Le(|payload|) && image[12..16] == U32Le(Crc(payload) as int)
      && image[16..20] == U32Le(createdUnix)
      && (forall i :: 20 <= i < 4096 ==> image[i] == 0)
      && (forall i :: 0 <= i < |payload| ==> image[4096 + i] == payload[i] as int)
      && (forall i :: 4096 + |payload| <= i < 0x20_0000 ==> image[i] == 0)
  {
    WordBytes(MAGIC, 0x42, 0x4E, 0x52, 0x4C);
    WordBytes(VERSION, 1, 0, 0, 0);
    var head := HeaderWords(HeaderOf(payload, createdUnix));
    HeadOfImage(payload, createdUnix);
    assert head[..8] == U32Le(MAGIC) + U32Le(VERSION);
    assert head[8..12] == U32Le(|payload|) && head[12..16] == U32Le(Crc(payload) as int);
  }

  lemma HeadOfImage(payload: seq<bv8>, createdUnix: uint32)
    requires |payload| <= MAX_PAYLOAD
    ensures var image, head := Image(payload, createdUnix), HeaderWords(HeaderOf(payload, createdUnix));
      && image[..8] == head[..8] && image[8..12] == head[8..12] && image[12..16] == head[12..16]
      && image[16..20] == head[16..20]
  {
    var head := HeaderWords(HeaderOf(payload, createdUnix));
    assert Image(payload, createdUnix)[..20] == head;
  }

  /**
   An image parses exactly if it has the size, the tag, the version, a length
   that fits, and the CRC of the payload that length cuts out; and that payload
   is what it parses to.
   */
  lemma ParsesIff(image: seq<byte>)
    ensures Parse(image).Ok? <==>
      && |image| == 0x20_0000 && U32Of(image[0..4]) == 0x4C52_4E42 && U32Of(image[4..8]) == 1
      && U32Of(image[8..12]) <= 0x20_0000 - 4096
      && Crc(Octets(image[4096..4096 + U32Of(image[8..12])])) as int == U32Of(image[12..16])
    ensures Parse(image).Ok? ==>
      Parse(image).value == Bank(Header(U32Of(image[8..12]), U32Of(image[12..16]), U32Of(image[16..20])),
                                 Octets(image[4096..4096 + U32Of(image[8..12])]))
  {
  }

  /** Which error is reported: the first of these that applies. */
  lemma RefusalIs(image: seq<byte>)
    ensures |image| != 0x20_0000 ==> Parse(image) == Err(WrongImageSize)
    ensures |image| == 0x20_0000 && U32Of(image[0..4]) != 0x4C52_4E42 ==>
              Parse(image) == Err(BadMagic(U32Of(image[0..4])))
    ensures |image| == 0x20_0000 && U32Of(image[0..4]) == 0x4C52_4E42 && U32Of(image[4..8]) != 1 ==>
              Parse(image) == Err(BadVersion(U32Of(image[4..8])))
    ensures Parse(image) == Err(LengthTooLarge) ==> |image| == 0x20_0000 && U32Of(image[8..12]) > 0x20_0000 - 4096
    ensures Parse(image) == Err(CrcMismatch) ==> |image| == 0x20_0000 && U32Of(image[8..12]) <= 0x20_0000 - 4096
  {
  }
}
