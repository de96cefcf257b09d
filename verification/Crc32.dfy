/** The bitwise CRC-32 of src/bin/radnet_tools.rs, the CRC of section 8 of RFC 1952. */
module Crc32 {
  import opened LinearRegister

  function Xor(a: bv32, b: bv32): bv32 {
    a ^ b
  }

  function Half(c: bv32): bv32 {
    c >> 1
  }

  function Feedback(c: bv32): bv32 {
    0xEDB8_8320 & (0 - (c & 1))
  }

  function BitStep(c: bv32): bv32 {
    Xor(Half(c), Feedback(c))
  }

  /** The 32-bit register under xor and the CRC's bit step. */
  function Crc32Algebra(): Algebra<bv32> {
    Algebra(0, Xor, BitStep)
  }

  function Word(b: bv8): bv32 {
    b as bv32
  }

  function Widen(bytes: seq<bv8>): (r: seq<bv32>)
    ensures |r| == |bytes| && forall i :: 0 <= i < |bytes| ==> r[i] == Word(bytes[i])
  {
    seq(|bytes|, i requires 0 <= i < |bytes| => Word(bytes[i]))
  }

  function Complement(c: bv32): bv32 {
    !c
  }

  function Crc(bytes: seq<bv8>): bv32 {
    Complement(Register(Crc32Algebra(), 0xFFFF_FFFF, Widen(bytes)))
  }

  /** One pass of the innermost loop of `crc32`. */
  method ShiftBit(register: bv32) returns (crc: bv32)
    ensures crc == BitStep(register)
  {
    var mask := 0 - (register & 1);
    crc := (register >> 1) ^ (0xEDB8_8320 & mask);
  }

  /** The inner loop of `crc32`. */
  method FeedByte(register: bv32, byte: bv8) returns (crc: bv32)
    ensures crc == Steps(Crc32Algebra(), Crc32Algebra().xor(register, Word(byte)), 8)
  {
    crc := Xor(register, Word(byte));
    ghost var fed := crc;
    for k := 0 to 8
      invariant crc == Steps(Crc32Algebra(), fed, k)
    {
      crc := ShiftBit(crc);
    }
  }

  /** `crc32`. */
  method Checksum(bytes: seq<bv8>) returns (r: bv32)
    ensures r == Crc(bytes)
  {
    var crc: bv32 := 0xFFFF_FFFF;
    for i := 0 to |bytes|
      invariant crc == Register(Crc32Algebra(), 0xFFFF_FFFF, Widen(bytes[..i]))
    {
      assert Widen(bytes[..i + 1]) == Widen(bytes[..i]) + [Word(bytes[i])];
      RegisterAppend(Crc32Algebra(), 0xFFFF_FFFF, Widen(bytes[..i]), Word(bytes[i]));
      crc := FeedByte(crc, bytes[i]);
    }
    assert bytes[..|bytes|] == bytes;
    r := Complement(crc);
  }

  // ---- The concrete register is lawful --------------------------------------

  lemma XorCommutes(a: bv32, b: bv32)
    ensures Xor(a, b) == Xor(b, a)
  {
  }

  lemma XorAssociates(a: bv32, b: bv32, c: bv32)
    ensures Xor(Xor(a, b), c) == Xor(a, Xor(b, c))
  {
  }

  lemma XorRegroups(a: bv32, b: bv32, c: bv32, d: bv32)
    ensures Xor(Xor(a, b), Xor(c, d)) == Xor(Xor(a, c), Xor(b, d))
  {
    XorAssociates(a, b, Xor(c, d));
    XorAssociates(b, c, d);
    XorCommutes(b, c);
    XorAssociates(c, b, d);
    XorAssociates(a, c, Xor(b, d));
  }

  lemma HalfLinear(a: bv32, b: bv32)
    ensures Half(Xor(a, b)) == Xor(Half(a), Half(b))
  {
  }

  lemma FeedbackLinear(a: bv32, b: bv32)
    ensures Feedback(Xor(a, b)) == Xor(Feedback(a), Feedback(b))
  {
  }

  lemma BitStepLinear(a: bv32, b: bv32)
    ensures BitStep(Xor(a, b)) == Xor(BitStep(a), BitStep(b))
  {
    HalfLinear(a, b);
    FeedbackLinear(a, b);
    XorRegroups(Half(a), Half(b), Feedback(a), Feedback(b));
  }

  /** The polynomial has its top bit set, so a step can be undone. */
  lemma BitStepInjective(a: bv32, b: bv32)
    requires BitStep(a) == BitStep(b)
    ensures a == b
  {
  }

  lemma XorSelf(a: bv32)
    ensures Xor(a, a) == 0
  {
  }

  lemma XorZero(a: bv32, b: bv32)
    requires Xor(a, b) == 0
    ensures a == b
  {
  }

  lemma Crc32Regroups()
    ensures Regroups(Crc32Algebra())
  {
    forall a: bv32, b: bv32, c: bv32, d: bv32
      ensures RegroupsAt(Crc32Algebra(), a, b, c, d)
    {
      XorRegroups(a, b, c, d);
    }
  }

  lemma Crc32IsLinear()
    ensures Linear(Crc32Algebra())
  {
    forall a: bv32, b: bv32
      ensures LinearAt(Crc32Algebra(), a, b)
    {
      BitStepLinear(a, b);
    }
  }

  lemma Crc32XorTellsApart()
    ensures XorTellsApart(Crc32Algebra())
  {
    var g := Crc32Algebra();
    forall a: bv32
      ensures g.xor(a, a) == g.zero
    {
      XorSelf(a);
    }
    forall a: bv32, b: bv32 | g.xor(a, b) == g.zero
      ensures a == b
    {
      XorZero(a, b);
    }
  }

  lemma Crc32StepTellsApart()
    ensures StepTellsApart(Crc32Algebra())
  {
    var g := Crc32Algebra();
    forall a: bv32, b: bv32 | g.step(a) == g.step(b)
      ensures a == b
    {
      BitStepInjective(a, b);
    }
  }

  /** The CRC's register is an instance of everything LinearRegister proves. */
  lemma Crc32IsLawful()
    ensures Lawful(Crc32Algebra())
  {
    Crc32Regroups();
    Crc32IsLinear();
    Crc32XorTellsApart();
    Crc32StepTellsApart();
  }

  // ---- Error detection ------------------------------------------------------

  function XorBytes(x: seq<bv8>, y: seq<bv8>): (r: seq<bv8>)
    requires |x| == |y|
    ensures |r| == |x| && forall i :: 0 <= i < |x| ==> r[i] == x[i] ^ y[i]
  {
    seq(|x|, i requires 0 <= i < |x| => x[i] ^ y[i])
  }

  lemma WidenXor(x: bv8, y: bv8)
    ensures Word(x ^ y) == Xor(Word(x), Word(y))
  {
  }

  lemma ComplementInjective(a: bv32, b: bv32)
    requires Complement(a) == Complement(b)
    ensures a == b
  {
  }

  lemma WidenXorBytes(x: seq<bv8>, y: seq<bv8>)
    requires |x| == |y|
    ensures Widen(XorBytes(x, y)) == XorAll(Crc32Algebra(), Widen(x), Widen(y))
  {
    forall i | 0 <= i < |x|
      ensures Widen(XorBytes(x, y))[i] == XorAll(Crc32Algebra(), Widen(x), Widen(y))[i]
    {
      WidenXor(x[i], y[i]);
    }
  }

  /** The error pattern drives a zero register back to zero. */
  ghost predicate Invisible(error: seq<bv8>) {
    Register(Crc32Algebra(), 0, Widen(error)) == 0
  }

  lemma SameWordsIff(x: seq<bv32>, y: seq<bv32>)
    requires |x| == |y|
    ensures Register(Crc32Algebra(), 0xFFFF_FFFF, x) == Register(Crc32Algebra(), 0xFFFF_FFFF, y) <==>
            Register(Crc32Algebra(), 0, XorAll(Crc32Algebra(), x, y)) == 0
  {
    Crc32IsLawful();
    SameRegisterIff(Crc32Algebra(), 0xFFFF_FFFF, x, y);
  }

  /** A corruption goes unnoticed exactly when its error pattern is invisible. */
  lemma UndetectedIff(x: seq<bv8>, y: seq<bv8>)
    requires |x| == |y|
    ensures Crc(x) == Crc(y) <==> Invisible(XorBytes(x, y))
  {
    SameWordsIff(Widen(x), Widen(y));
    WidenXorBytes(x, y);
    if Crc(x) == Crc(y) {
      ComplementInjective(Register(Crc32Algebra(), 0xFFFF_FFFF, Widen(x)),
                          Register(Crc32Algebra(), 0xFFFF_FFFF, Widen(y)));
    }
  }

  // ---- Bursts of four bytes -------------------------------------------------

  predicate Even(c: bv32) {
    c & 1 == 0
  }

  lemma EvenStep(c: bv32)
    requires Even(c)
    ensures BitStep(c) == Half(c)
  {
  }

  function Halves(c: bv32, n: nat): bv32 {
    if n == 0 then c else Half(Halves(c, n - 1))
  }

  lemma {:induction false} EvenSteps(c: bv32, n: nat)
    requires forall i :: 0 <= i < n ==> Even(Halves(c, i))
    ensures Steps(Crc32Algebra(), c, n) == Halves(c, n)
  {
    if n > 0 {
      EvenSteps(c, n - 1);
      EvenStep(Halves(c, n - 1));
    }
  }

  lemma HalfShifts(c: bv32)
    ensures Half(c) == c >> 1 && Half(c >> 1) == c >> 2 && Half(c >> 2) == c >> 3 && Half(c >> 3) == c >> 4
    ensures Half(c >> 4) == c >> 5 && Half(c >> 5) == c >> 6 && Half(c >> 6) == c >> 7 && Half(c >> 7) == c >> 8
  {
  }

  lemma HalvesShift(c: bv32)
    ensures Halves(c, 1) == c >> 1 && Halves(c, 2) == c >> 2 && Halves(c, 3) == c >> 3 && Halves(c, 4) == c >> 4
    ensures Halves(c, 5) == c >> 5 && Halves(c, 6) == c >> 6 && Halves(c, 7) == c >> 7 && Halves(c, 8) == c >> 8
  {
    HalfShifts(c);
  }

  lemma LowBits(c: bv32)
    requires c & 0xFF == 0
    ensures Even(c) && Even(c >> 1) && Even(c >> 2) && Even(c >> 3)
    ensures Even(c >> 4) && Even(c >> 5) && Even(c >> 6) && Even(c >> 7)
  {
  }

  lemma ShiftOutByte(c: bv32)
    requires c & 0xFF == 0
    ensures Steps(Crc32Algebra(), c, 8) == c >> 8
  {
    LowBits(c);
    HalvesShift(c);
    forall i | 0 <= i < 8
      ensures Even(Halves(c, i))
    {
      assert Halves(c, 0) == c;
    }
    EvenSteps(c, 8);
  }

  function Up(v: bv32): bv32 {
    v << 8
  }

  /** Nothing outside the low 8, 16 or 24 bits. */
  predicate Within(v: bv32, bits: nat) {
    if bits <= 8 then v & 0xFFFF_FF00 == 0
    else if bits <= 16 then v & 0xFFFF_0000 == 0
    else v & 0xFF00_0000 == 0
  }

  lemma WithinGrows(v: bv32)
    ensures Within(v, 8) ==> Within(v, 16)
    ensures Within(v, 16) ==> Within(v, 24)
  {
  }

  lemma UpIsUndone(v: bv32)
    requires Within(v, 24)
    ensures Up(v) & 0xFF == 0 && Up(v) >> 8 == v
  {
  }

  /** What eight steps turn into `v`, when `v` leaves the top byte free. */
  lemma BeforeEightSteps(u: bv32, v: bv32)
    requires Steps(Crc32Algebra(), u, 8) == v && Within(v, 24)
    ensures u == Up(v)
  {
    Crc32IsLawful();
    UpIsUndone(v);
    ShiftOutByte(Up(v));
    StepsInjective(Crc32Algebra(), u, Up(v), 8);
  }

  lemma MoveByte(a: bv32, b: bv32, v: bv32)
    requires Xor(a, b) == v
    ensures a == Xor(v, b)
  {
  }

  lemma XorOfZero(v: bv32)
    ensures Xor(0, v) == v && Up(0) == 0
  {
  }

  lemma ByteWithin(d: bv8)
    ensures Within(Word(d), 8)
  {
  }

  lemma UpWithin16(v: bv32, d: bv8)
    requires Within(v, 8)
    ensures Within(Xor(Up(v), Word(d)), 16)
  {
  }

  lemma UpWithin24(v: bv32, d: bv8)
    requires Within(v, 16)
    ensures Within(Xor(Up(v), Word(d)), 24)
  {
  }

  /** A byte and a shifted word never overlap. */
  lemma ByteMeetsUp(v: bv32, d: bv8)
    requires Within(v, 24) && Xor(Up(v), Word(d)) == 0
    ensures v == 0 && d == 0
  {
  }

  /** Undoes one byte of input: the register before byte `d`, from the one after it. */
  lemma PeelByte(g: Algebra<bv32>, before: bv32, d: bv8, after: bv32)
    requires g == Crc32Algebra() && Steps(g, g.xor(before, Word(d)), 8) == after && Within(after, 24)
    ensures before == Xor(Up(after), Word(d))
  {
    BeforeEightSteps(Xor(before, Word(d)), after);
    MoveByte(before, Word(d), Up(after));
  }

  lemma FourBytes(d0: bv8, d1: bv8, d2: bv8, d3: bv8, r1: bv32, r2: bv32, r3: bv32)
    requires r3 == Word(d3)
    requires r2 == Xor(Up(r3), Word(d2)) && r1 == Xor(Up(r2), Word(d1)) && 0 == Xor(Up(r1), Word(d0))
    ensures d0 == 0 && d1 == 0 && d2 == 0 && d3 == 0
  {
    ByteWithin(d3);
    UpWithin16(r3, d2);
    UpWithin24(r2, d1);
    ByteMeetsUp(r1, d0);
    WithinGrows(r2);
    ByteMeetsUp(r2, d1);
    WithinGrows(r3);
    ByteMeetsUp(r3, d2);
    ZeroByte(d3);
  }

  lemma ZeroByte(d: bv8)
    ensures Word(d) == 0 <==> d == 0
  {
  }

  /** No non-zero pattern of four bytes takes a zero register back to zero. */
  lemma FourByteErrorVisible(d: seq<bv8>)
    requires |d| == 4 && Invisible(d)
    ensures forall i :: 0 <= i < 4 ==> d[i] == 0
  {
    var g := Crc32Algebra();
    var r1 := Register(g, 0, Widen(d[..1]));
    var r2 := Register(g, 0, Widen(d[..2]));
    var r3 := Register(g, 0, Widen(d[..3]));
    FeedOne(d[..0], d[..1]);
    FeedOne(d[..1], d[..2]);
    FeedOne(d[..2], d[..3]);
    FeedOne(d[..3], d);
    XorOfZero(Word(d[3]));
    PeelByte(g, r3, d[3], 0);
    ByteWithin(d[3]);
    WithinGrows(r3);
    PeelByte(g, r2, d[2], r3);
    UpWithin16(r3, d[2]);
    WithinGrows(r2);
    PeelByte(g, r1, d[1], r2);
    UpWithin24(r2, d[1]);
    PeelByte(g, 0, d[0], r1);
    FourBytes(d[0], d[1], d[2], d[3], r1, r2, r3);
  }

  lemma FeedOne(x: seq<bv8>, y: seq<bv8>)
    requires |y| == |x| + 1 && y[..|x|] == x
    ensures Register(Crc32Algebra(), 0, Widen(y)) ==
            Steps(Crc32Algebra(), Crc32Algebra().xor(Register(Crc32Algebra(), 0, Widen(x)), Word(y[|x|])), 8)
  {
    assert Widen(y) == Widen(x) + [Word(y[|x|])];
    RegisterAppend(Crc32Algebra(), 0, Widen(x), Word(y[|x|]));
  }

  ghost predicate DifferWithin(x: seq<bv8>, y: seq<bv8>, at: nat) {
    |x| == |y| && at + 4 <= |x| && x[..at] == y[..at] && x[at + 4..] == y[at + 4..]
  }

  lemma XorByteSelf(b: bv8)
    ensures b ^ b == 0 && Word(0) == 0
  {
  }

  lemma XorByteZero(a: bv8, b: bv8)
    requires a ^ b == 0
    ensures a == b
  {
  }

  lemma EqualBytesCancel(x: seq<bv8>)
    ensures AllZero(Crc32Algebra(), Widen(XorBytes(x, x)))
  {
    forall i | 0 <= i < |x|
      ensures Widen(XorBytes(x, x))[i] == 0
    {
      XorByteSelf(x[i]);
    }
  }

  lemma SplitError(x: seq<bv8>, y: seq<bv8>, at: nat)
    requires DifferWithin(x, y, at)
    ensures Widen(XorBytes(x, y)) == Widen(XorBytes(x[..at], x[..at])) +
            Widen(XorBytes(x[at..at + 4], y[at..at + 4])) + Widen(XorBytes(x[at + 4..], x[at + 4..]))
  {
    forall i | at + 4 <= i < |x|
      ensures x[i] == x[at + 4..][i - at - 4] && y[i] == y[at + 4..][i - at - 4]
    {
    }
    forall i | 0 <= i < at
      ensures x[i] == x[..at][i] && y[i] == y[..at][i]
    {
    }
  }

  lemma MiddleDecides(before: seq<bv32>, middle: seq<bv32>, after: seq<bv32>)
    requires AllZero(Crc32Algebra(), before) && AllZero(Crc32Algebra(), after)
    ensures Register(Crc32Algebra(), 0, before + middle + after) == 0 <==> Register(Crc32Algebra(), 0, middle) == 0
  {
    Crc32IsLawful();
    OnlyTheMiddleMatters(Crc32Algebra(), before, middle, after);
  }

  /** Two inputs of one length that differ only within four consecutive bytes have different CRCs. */
  lemma BurstDetected(x: seq<bv8>, y: seq<bv8>, at: nat)
    requires DifferWithin(x, y, at)
    ensures Crc(x) == Crc(y) <==> x == y
  {
    if Crc(x) == Crc(y) {
      var error := XorBytes(x[at..at + 4], y[at..at + 4]);
      UndetectedIff(x, y);
      SplitError(x, y, at);
      EqualBytesCancel(x[..at]);
      EqualBytesCancel(x[at + 4..]);
      MiddleDecides(Widen(XorBytes(x[..at], x[..at])), Widen(error), Widen(XorBytes(x[at + 4..], x[at + 4..])));
      FourByteErrorVisible(error);
      SameMiddle(x[at..at + 4], y[at..at + 4]);
      assert x == x[..at] + x[at..at + 4] + x[at + 4..] && y == y[..at] + y[at..at + 4] + y[at + 4..];
    }
  }

  lemma SameMiddle(x: seq<bv8>, y: seq<bv8>)
    requires |x| == |y| && forall i :: 0 <= i < |x| ==> XorBytes(x, y)[i] == 0
    ensures x == y
  {
    forall i | 0 <= i < |x|
      ensures x[i] == y[i]
    {
      assert XorBytes(x, y)[i] == 0;
      XorByteZero(x[i], y[i]);
    }
  }
}
