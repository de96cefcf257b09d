/**
 Length-prefixed binary formats, each a writer with the reader that undoes it,
 put together from smaller ones.
 */
module BinaryFormat {
  import opened ByteCodec

  datatype ReadError = UnexpectedEof | NotUtf8

  /** A value and the bytes behind it, or why there is none. */
  datatype Read<+T> = Got(value: T, rest: seq<byte>) | Bad(error: ReadError)

  /** `ok` says which values the format can carry. */
  datatype Format<!T> = Format(ok: T -> bool, write: T -> seq<byte>, read: seq<byte> -> Read<T>)

  // ---- What a format promises -----------------------------------------------

  /** Reading undoes writing, and leaves whatever follows. */
  ghost predicate InvertsAt<T>(f: Format<T>, x: T, rest: seq<byte>) {
    f.ok(x) ==> f.read(f.write(x) + rest) == Got(x, rest)
  }

  /** A value whose bytes are cut short is never read. */
  ghost predicate RefusesAt<T>(f: Format<T>, x: T, cut: nat) {
    f.ok(x) && cut < |f.write(x)| ==> f.read(f.write(x)[..cut]) == Bad(UnexpectedEof)
  }

  ghost predicate Lawful<T(!new)>(f: Format<T>) {
    && (forall x: T, rest: seq<byte> :: InvertsAt(f, x, rest))
    && (forall x: T, cut: nat :: RefusesAt(f, x, cut))
  }

  // ---- Two in a row ---------------------------------------------------------

  function ReadBoth<A, B>(f: Format<A>, g: Format<B>, b: seq<byte>): Read<(A, B)> {
    match f.read(b)
    case Bad(e) => Bad(e)
    case Got(x, rest) =>
      match g.read(rest)
      case Bad(e) => Bad(e)
      case Got(y, rest') => Got((x, y), rest')
  }

  function Both<A, B>(f: Format<A>, g: Format<B>): Format<(A, B)> {
    Format((p: (A, B)) => f.ok(p.0) && g.ok(p.1),
           (p: (A, B)) => f.write(p.0) + g.write(p.1),
           (b: seq<byte>) => ReadBoth(f, g, b))
  }

  lemma BothInverts<A(!new), B(!new)>(f: Format<A>, g: Format<B>, x: A, y: B, rest: seq<byte>)
    requires f.ok(x) && g.ok(y)
    requires InvertsAt(f, x, g.write(y) + rest) && InvertsAt(g, y, rest)
    ensures ReadBoth(f, g, f.write(x) + g.write(y) + rest) == Got((x, y), rest)
  {
    assert f.write(x) + g.write(y) + rest == f.write(x) + (g.write(y) + rest);
  }

  lemma BothRefuses<A(!new), B(!new)>(f: Format<A>, g: Format<B>, x: A, y: B, cut: nat)
    requires f.ok(x) && g.ok(y) && Lawful(f) && Lawful(g)
    requires cut < |f.write(x)| + |g.write(y)|
    ensures ReadBoth(f, g, (f.write(x) + g.write(y))[..cut]) == Bad(UnexpectedEof)
  {
    var n := |f.write(x)|;
    if cut < n {
      assert RefusesAt(f, x, cut);
      assert (f.write(x) + g.write(y))[..cut] == f.write(x)[..cut];
    } else {
      assert (f.write(x) + g.write(y))[..cut] == f.write(x) + g.write(y)[..cut - n];
      assert InvertsAt(f, x, g.write(y)[..cut - n]);
      assert RefusesAt(g, y, cut - n);
    }
  }

  lemma BothLawful<A(!new), B(!new)>(f: Format<A>, g: Format<B>)
    requires Lawful(f) && Lawful(g)
    ensures Lawful(Both(f, g))
  {
    var h := Both(f, g);
    forall p: (A, B), rest: seq<byte>
      ensures InvertsAt(h, p, rest)
    {
      if h.ok(p) {
        assert InvertsAt(f, p.0, g.write(p.1) + rest) && InvertsAt(g, p.1, rest);
        BothInverts(f, g, p.0, p.1, rest);
      }
    }
    forall p: (A, B), cut: nat
      ensures RefusesAt(h, p, cut)
    {
      if h.ok(p) && cut < |h.write(p)| {
        BothRefuses(f, g, p.0, p.1, cut);
      }
    }
  }

  // ---- The same bytes as another type ---------------------------------------

  function ReadAs<A, B>(f: Format<A>, wrap: A -> B, b: seq<byte>): Read<B> {
    match f.read(b)
    case Bad(e) => Bad(e)
    case Got(x, rest) => Got(wrap(x), rest)
  }

  function As<A, B>(f: Format<A>, wrap: A -> B, unwrap: B -> A): Format<B> {
    Format((y: B) => f.ok(unwrap(y)), (y: B) => f.write(unwrap(y)), (b: seq<byte>) => ReadAs(f, wrap, b))
  }

  lemma AsLawful<A(!new), B(!new)>(f: Format<A>, wrap: A -> B, unwrap: B -> A)
    requires Lawful(f) && forall y: B :: wrap(unwrap(y)) == y
    ensures Lawful(As(f, wrap, unwrap))
  {
    var h := As(f, wrap, unwrap);
    forall y: B, rest: seq<byte>
      ensures InvertsAt(h, y, rest)
    {
      assert InvertsAt(f, unwrap(y), rest);
    }
    forall y: B, cut: nat
      ensures RefusesAt(h, y, cut)
    {
      assert RefusesAt(f, unwrap(y), cut);
    }
  }

  lemma BothWrites<A, B>(f: Format<A>, g: Format<B>, x: A, y: B)
    ensures Both(f, g).write((x, y)) == f.write(x) + g.write(y)
    ensures Both(f, g).ok((x, y)) <==> f.ok(x) && g.ok(y)
  {
  }

  lemma AsWrites<A, B>(f: Format<A>, wrap: A -> B, unwrap: B -> A, y: B)
    ensures As(f, wrap, unwrap).write(y) == f.write(unwrap(y))
    ensures As(f, wrap, unwrap).ok(y) <==> f.ok(unwrap(y))
  {
  }

  // ---- Numbers and strings --------------------------------------------------

  function ReadU32(b: seq<byte>): Read<nat> {
    if |b| < 4 then Bad(UnexpectedEof) else Got(U32Of(b[..4]), b[4..])
  }

  /** The bytes of a count or an index: its low 32 bits. */
  function WordBytes(n: nat): (r: seq<byte>)
    ensures |r| == 4
  {
    U32Le(if n < 0x1_0000_0000 then n else n % 0x1_0000_0000)
  }

  lemma WordReads(n: nat, rest: seq<byte>)
    requires n < 0x1_0000_0000
    ensures ReadU32(WordBytes(n) + rest) == Got(n, rest)
  {
    U32RoundTrip(n);
    assert (WordBytes(n) + rest)[..4] == WordBytes(n) && (WordBytes(n) + rest)[4..] == rest;
  }

  function Word(): Format<nat> {
    Format((x: nat) => x < U32, (x: nat) => WordBytes(x), (b: seq<byte>) => ReadU32(b))
  }

  function ReadI32(b: seq<byte>): Read<int> {
    if |b| < 4 then Bad(UnexpectedEof) else Got(I32Of(b[..4]), b[4..])
  }

  function ClampI32(x: int): int32 {
    if -0x8000_0000 <= x < 0x8000_0000 then x else 0
  }

  function Signed(): Format<int> {
    Format((x: int) => -0x8000_0000 <= x < 0x8000_0000,
           (x: int) => I32Le(ClampI32(x)),
           (b: seq<byte>) => ReadI32(b))
  }

  lemma WordLawful()
    ensures Lawful(Word())
  {
    forall x: nat, rest: seq<byte>
      ensures InvertsAt(Word(), x, rest)
    {
      if x < U32 {
        WordReads(x, rest);
      }
    }
  }

  lemma SignedLawful()
    ensures Lawful(Signed())
  {
    forall x: int, rest: seq<byte>
      ensures InvertsAt(Signed(), x, rest)
    {
      var z := ClampI32(x);
      LeRoundTrips(0, 0, z);
      assert (I32Le(z) + rest)[..4] == I32Le(z) && (I32Le(z) + rest)[4..] == rest;
    }
  }

  /** The bytes of a 16-bit length. */
  function HalfBytes(n: nat): (r: seq<byte>)
    ensures |r| == 2
  {
    U16Le(if n < 0x1_0000 then n else n % 0x1_0000)
  }

  function ReadU16(b: seq<byte>): Read<nat> {
    if |b| < 2 then Bad(UnexpectedEof) else Got(U16Of(b[..2]), b[2..])
  }

  lemma HalfReads(n: nat, rest: seq<byte>)
    requires n < 0x1_0000
    ensures ReadU16(HalfBytes(n) + rest) == Got(n, rest)
  {
    LeRoundTrips(n, 0, 0);
    assert (HalfBytes(n) + rest)[..2] == HalfBytes(n) && (HalfBytes(n) + rest)[2..] == rest;
  }

  function HalfWord(): Format<nat> {
    Format((x: nat) => x < 0x1_0000, (x: nat) => HalfBytes(x), (b: seq<byte>) => ReadU16(b))
  }

  lemma HalfWordLawful()
    ensures Lawful(HalfWord())
  {
    forall x: nat, rest: seq<byte>
      ensures InvertsAt(HalfWord(), x, rest)
    {
      if x < 0x1_0000 {
        HalfReads(x, rest);
      }
    }
  }

  function Octet(): Format<byte> {
    Format((x: byte) => true, (x: byte) => [x],
           (b: seq<byte>) => if b == [] then Bad(UnexpectedEof) else Got(b[0], b[1..]))
  }

  lemma OctetLawful()
    ensures Lawful(Octet())
  {
    forall x: byte, rest: seq<byte>
      ensures InvertsAt(Octet(), x, rest)
    {
      assert ([x] + rest)[1..] == rest;
    }
  }

  function ReadText(utf8: seq<byte> -> bool, b: seq<byte>): Read<seq<byte>> {
    match ReadU32(b)
    case Bad(e) => Bad(e)
    case Got(n, rest) =>
      if |rest| < n then Bad(UnexpectedEof)
      else if !utf8(rest[..n]) then Bad(NotUtf8)
      else Got(rest[..n], rest[n..])
  }

  /** `write_string` and `read_string`; strings are their UTF-8 bytes. */
  function Text(utf8: seq<byte> -> bool): Format<seq<byte>> {
    Format((s: seq<byte>) => |s| < U32 && utf8(s),
           (s: seq<byte>) => WordBytes(|s|) + s,
           (b: seq<byte>) => ReadText(utf8, b))
  }

  lemma TextReads(utf8: seq<byte> -> bool, s: seq<byte>, rest: seq<byte>)
    requires |s| < U32 && utf8(s)
    ensures ReadText(utf8, WordBytes(|s|) + s + rest) == Got(s, rest)
  {
    assert WordBytes(|s|) + s + rest == WordBytes(|s|) + (s + rest);
    WordReads(|s|, s + rest);
    assert (s + rest)[..|s|] == s && (s + rest)[|s|..] == rest;
  }

  lemma TextCut(utf8: seq<byte> -> bool, s: seq<byte>, cut: nat)
    requires |s| < U32 && cut < 4 + |s|
    ensures ReadText(utf8, (WordBytes(|s|) + s)[..cut]) == Bad(UnexpectedEof)
  {
    var b := (WordBytes(|s|) + s)[..cut];
    if cut >= 4 {
      assert b == WordBytes(|s|) + s[..cut - 4];
      WordReads(|s|, s[..cut - 4]);
    }
  }

  lemma TextLawful(utf8: seq<byte> -> bool)
    ensures Lawful(Text(utf8))
  {
    var f := Text(utf8);
    forall s: seq<byte>, rest: seq<byte>
      ensures InvertsAt(f, s, rest)
    {
      if f.ok(s) {
        TextReads(utf8, s, rest);
      }
    }
    forall s: seq<byte>, cut: nat
      ensures RefusesAt(f, s, cut)
    {
      if f.ok(s) && cut < |f.write(s)| {
        TextCut(utf8, s, cut);
      }
    }
  }

  // ---- Counted lists --------------------------------------------------------

  function WriteAll<T>(f: Format<T>, xs: seq<T>): seq<byte> {
    if xs == [] then [] else f.write(xs[0]) + WriteAll(f, xs[1..])
  }

  function ReadAll<T>(f: Format<T>, n: nat, b: seq<byte>): Read<seq<T>> {
    if n == 0 then Got([], b)
    else
      match f.read(b)
      case Bad(e) => Bad(e)
      case Got(x, rest) =>
        match ReadAll(f, n - 1, rest)
        case Bad(e) => Bad(e)
        case Got(xs, rest') => Got([x] + xs, rest')
  }

  function ReadCounted<T>(n: Format<nat>, f: Format<T>, b: seq<byte>): Read<seq<T>> {
    match n.read(b)
    case Bad(e) => Bad(e)
    case Got(count, rest) => ReadAll(f, count, rest)
  }

  /** A list behind its length, which `n` writes. */
  function CountedBy<T>(n: Format<nat>, f: Format<T>): Format<seq<T>> {
    Format((xs: seq<T>) => n.ok(|xs|) && forall i :: 0 <= i < |xs| ==> f.ok(xs[i]),
           (xs: seq<T>) => n.write(|xs|) + WriteAll(f, xs),
           (b: seq<byte>) => ReadCounted(n, f, b))
  }

  function Counted<T>(f: Format<T>): Format<seq<T>> {
    CountedBy(Word(), f)
  }

  lemma {:induction false} AllRead<T(!new)>(f: Format<T>, xs: seq<T>, rest: seq<byte>)
    requires Lawful(f) && forall i :: 0 <= i < |xs| ==> f.ok(xs[i])
    ensures ReadAll(f, |xs|, WriteAll(f, xs) + rest) == Got(xs, rest)
  {
    if xs == [] {
      assert WriteAll(f, xs) + rest == rest;
    } else {
      AllRead(f, xs[1..], rest);
      assert WriteAll(f, xs) + rest == f.write(xs[0]) + (WriteAll(f, xs[1..]) + rest);
      assert InvertsAt(f, xs[0], WriteAll(f, xs[1..]) + rest);
      assert [xs[0]] + xs[1..] == xs;
    }
  }

  lemma {:induction false} AllCut<T(!new)>(f: Format<T>, xs: seq<T>, cut: nat)
    requires Lawful(f) && forall i :: 0 <= i < |xs| ==> f.ok(xs[i])
    requires cut < |WriteAll(f, xs)|
    ensures ReadAll(f, |xs|, WriteAll(f, xs)[..cut]) == Bad(UnexpectedEof)
  {
    var first, others := f.write(xs[0]), WriteAll(f, xs[1..]);
    if cut < |first| {
      assert RefusesAt(f, xs[0], cut);
      assert (first + others)[..cut] == first[..cut];
    } else {
      AllCut(f, xs[1..], cut - |first|);
      assert InvertsAt(f, xs[0], others[..cut - |first|]);
      assert (first + others)[..cut] == first + others[..cut - |first|];
    }
  }

  lemma CountedReads<T(!new)>(n: Format<nat>, f: Format<T>, xs: seq<T>, rest: seq<byte>)
    requires Lawful(n) && Lawful(f) && CountedBy(n, f).ok(xs)
    ensures ReadCounted(n, f, n.write(|xs|) + WriteAll(f, xs) + rest) == Got(xs, rest)
  {
    assert n.write(|xs|) + WriteAll(f, xs) + rest == n.write(|xs|) + (WriteAll(f, xs) + rest);
    assert InvertsAt(n, |xs|, WriteAll(f, xs) + rest);
    AllRead(f, xs, rest);
  }

  lemma CountedCut<T(!new)>(n: Format<nat>, f: Format<T>, xs: seq<T>, cut: nat)
    requires Lawful(n) && Lawful(f) && CountedBy(n, f).ok(xs) && cut < |n.write(|xs|)| + |WriteAll(f, xs)|
    ensures ReadCounted(n, f, (n.write(|xs|) + WriteAll(f, xs))[..cut]) == Bad(UnexpectedEof)
  {
    var head, b := n.write(|xs|), (n.write(|xs|) + WriteAll(f, xs))[..cut];
    if cut >= |head| {
      assert b == head + WriteAll(f, xs)[..cut - |head|];
      assert InvertsAt(n, |xs|, WriteAll(f, xs)[..cut - |head|]);
      AllCut(f, xs, cut - |head|);
    } else {
      assert b == head[..cut];
      assert RefusesAt(n, |xs|, cut);
    }
  }

  lemma CountedByLawful<T(!new)>(n: Format<nat>, f: Format<T>)
    requires Lawful(n) && Lawful(f)
    ensures Lawful(CountedBy(n, f))
  {
    var h := CountedBy(n, f);
    forall xs: seq<T>, rest: seq<byte>
      ensures InvertsAt(h, xs, rest)
    {
      if h.ok(xs) {
        CountedReads(n, f, xs, rest);
      }
    }
    forall xs: seq<T>, cut: nat
      ensures RefusesAt(h, xs, cut)
    {
      if h.ok(xs) && cut < |h.write(xs)| {
        CountedCut(n, f, xs, cut);
      }
    }
  }

  lemma CountedLawful<T(!new)>(f: Format<T>)
    requires Lawful(f)
    ensures Lawful(Counted(f))
  {
    WordLawful();
    CountedByLawful(Word(), f);
  }

  // ---- The loops ------------------------------------------------------------

  lemma {:induction false} WriteAllAppend<T>(f: Format<T>, xs: seq<T>, x: T)
    ensures WriteAll(f, xs + [x]) == WriteAll(f, xs) + f.write(x)
  {
    if xs == [] {
      assert [x][1..] == [];
    } else {
      WriteAllAppend(f, xs[1..], x);
      assert (xs + [x])[1..] == xs[1..] + [x];
    }
  }

  lemma WriteAllGrows<T>(f: Format<T>, out: seq<byte>, xs: seq<T>, x: T)
    ensures out + WriteAll(f, xs + [x]) == out + WriteAll(f, xs) + f.write(x)
  {
    WriteAllAppend(f, xs, x);
  }

  /** Appends a count and then every item. */
  method AppendCounted<T>(out: seq<byte>, n: Format<nat>, f: Format<T>, xs: seq<T>) returns (r: seq<byte>)
    ensures r == out + CountedBy(n, f).write(xs)
  {
    r := out + n.write(|xs|);
    for i := 0 to |xs|
      invariant r == out + n.write(|xs|) + WriteAll(f, xs[..i])
    {
      WriteAllAppend(f, xs[..i], xs[i]);
      assert xs[..i + 1] == xs[..i] + [xs[i]];
      r := r + f.write(xs[i]);
    }
    assert xs[..|xs|] == xs;
    assert r == out + (n.write(|xs|) + WriteAll(f, xs));
  }

  /** What `ReadAll` makes of the items read so far and the ones still to come. */
  function Continue<T>(f: Format<T>, done: seq<T>, n: nat, b: seq<byte>): Read<seq<T>> {
    match ReadAll(f, n, b)
    case Bad(e) => Bad(e)
    case Got(xs, rest) => Got(done + xs, rest)
  }

  lemma ContinueStep<T>(f: Format<T>, done: seq<T>, n: nat, b: seq<byte>)
    requires n > 0
    ensures Continue(f, done, n, b) ==
            match f.read(b) { case Bad(e) => Bad(e) case Got(x, rest) => Continue(f, done + [x], n - 1, rest) }
  {
    if f.read(b).Got? {
      var x, rest := f.read(b).value, f.read(b).rest;
      if ReadAll(f, n - 1, rest).Got? {
        var xs := ReadAll(f, n - 1, rest).value;
        assert done + ([x] + xs) == done + [x] + xs;
      }
    }
  }

  /** Reads a count and then that many items, stopping at the first that fails. */
  method TakeCounted<T>(n: Format<nat>, f: Format<T>, b: seq<byte>) returns (r: Read<seq<T>>)
    ensures r == ReadCounted(n, f, b)
  {
    var count := n.read(b);
    if count.Bad? {
      return Bad(count.error);
    }
    var items: seq<T>, rest := [], count.rest;
    ghost var goal := ReadAll(f, count.value, rest);
    assert goal.Got? ==> [] + goal.value == goal.value;
    for i := 0 to count.value
      invariant Continue(f, items, count.value - i, rest) == goal
    {
      ContinueStep(f, items, count.value - i, rest);
      var item := f.read(rest);
      if item.Bad? {
        return Bad(item.error);
      }
      items, rest := items + [item.value], item.rest;
    }
    assert items + [] == items;
    r := Got(items, rest);
  }
}
