/** Big-endian numbers: fixed width, and with leading zeros stripped. */
module BigEndian {
  import opened ByteCodec

  function Pow256(n: nat): (r: nat)
    ensures r > 0
  {
    if n == 0 then 1 else 256 * Pow256(n - 1)
  }

  /** The low `n` bytes of `x`, most significant first. */
  function Fixed(x: nat, n: nat): (r: seq<byte>)
    ensures |r| == n
  {
    if n == 0 then [] else Fixed(x / 256, n - 1) + [x % 256]
  }

  /** `x` without leading zeros. */
  function Minimal(x: nat): seq<byte> {
    if x == 0 then [] else Minimal(x / 256) + [x % 256]
  }

  function ValueOf(b: seq<byte>): nat {
    if b == [] then 0 else
      var last: int := b[|b| - 1];
      256 * ValueOf(b[..|b| - 1]) + last
  }

  lemma ValueAppend(b: seq<byte>, d: byte)
    ensures ValueOf(b + [d]) == 256 * ValueOf(b) + d as int
  {
    assert (b + [d])[..|b|] == b;
  }

  lemma {:induction false} MinimalValue(x: nat)
    ensures ValueOf(Minimal(x)) == x
  {
    if x > 0 {
      MinimalValue(x / 256);
      ValueAppend(Minimal(x / 256), x % 256);
    }
  }

  lemma {:induction false} FixedValue(x: nat, n: nat)
    requires x < Pow256(n)
    ensures ValueOf(Fixed(x, n)) == x
  {
    if n > 0 {
      FixedValue(x / 256, n - 1);
      ValueAppend(Fixed(x / 256, n - 1), x % 256);
    }
  }

  lemma {:induction false} LeadingZero(b: seq<byte>)
    ensures ValueOf([0] + b) == ValueOf(b)
  {
    if b == [] {
      assert [0] + b == [] + [0];
      ValueAppend([], 0);
    } else {
      var n := |b| - 1;
      LeadingZero(b[..n]);
      assert [0] + b == ([0] + b[..n]) + [b[n]] && b == b[..n] + [b[n]];
      ValueAppend([0] + b[..n], b[n]);
      ValueAppend(b[..n], b[n]);
    }
  }

  predicate Stripped(b: seq<byte>) {
    b == [] || b[0] != 0
  }

  lemma {:induction false} MinimalStripped(x: nat)
    ensures Stripped(Minimal(x))
  {
    if x > 0 {
      MinimalStripped(x / 256);
    }
  }

  /** A byte string without leading zeros is the minimal one of its number. */
  lemma {:induction false} StrippedIsMinimal(b: seq<byte>)
    requires Stripped(b)
    ensures Minimal(ValueOf(b)) == b
  {
    if b != [] {
      var n := |b| - 1;
      StrippedIsMinimal(b[..n]);
      assert b == b[..n] + [b[n]];
      var v, d: int := ValueOf(b[..n]), b[n];
      assert (256 * v + d) / 256 == v && (256 * v + d) % 256 == d;
    }
  }

  /** The minimal byte strings are exactly those without leading zeros. */
  lemma MinimalIff(b: seq<byte>)
    ensures Minimal(ValueOf(b)) == b <==> Stripped(b)
  {
    if Stripped(b) {
      StrippedIsMinimal(b);
    } else {
      MinimalStripped(ValueOf(b));
    }
  }

  /** How many bytes a number needs. */
  lemma {:induction false} MinimalLength(x: nat, n: nat)
    ensures |Minimal(x)| <= n <==> x < Pow256(n)
  {
    if x > 0 && n > 0 {
      MinimalLength(x / 256, n - 1);
      QuotientBelow(x, Pow256(n - 1));
    }
  }

  lemma QuotientBelow(x: nat, p: nat)
    ensures x / 256 < p <==> x < 256 * p
  {
  }

  lemma {:induction false} FixedOfMinimal(x: nat)
    ensures Fixed(x, |Minimal(x)|) == Minimal(x)
  {
    if x > 0 {
      FixedOfMinimal(x / 256);
    }
  }

  /** The low `n` bytes of a number are its remainder. */
  lemma {:induction false} FixedIsRemainder(x: nat, n: nat)
    ensures ValueOf(Fixed(x, n)) == x % Pow256(n)
  {
    if n > 0 {
      FixedIsRemainder(x / 256, n - 1);
      ValueAppend(Fixed(x / 256, n - 1), x % 256);
      RemainderSplit(x, Pow256(n - 1));
    }
  }

  lemma RemainderSplit(x: nat, p: nat)
    requires p > 0
    ensures x % (256 * p) == 256 * (x / 256 % p) + x % 256
  {
    var q, d := x / 256, x % 256;
    var k, r := q / p, q % p;
    assert x == (256 * p) * k + (256 * r + d) by {
      assert q == p * k + r;
    }
    assert 0 <= 256 * r + d < 256 * p;
    DivisionUnique(x, 256 * p, k, 256 * r + d);
  }

  lemma DivisionUnique(x: nat, m: nat, k: nat, r: nat)
    requires m > 0 && x == m * k + r && r < m
    ensures x % m == r
  {
    var k', r' := x / m, x % m;
    if k < k' {
      Apart(m, k, r, k', r');
    } else if k' < k {
      Apart(m, k', r', k, r);
    }
  }

  lemma Apart(m: nat, k: nat, r: nat, k': nat, r': nat)
    requires r < m && k < k'
    ensures m * k + r < m * k' + r'
  {
    MulMonotone(m, k + 1, k');
    assert m * (k + 1) == m * k + m;
  }

  lemma {:induction false} MulMonotone(m: nat, a: nat, b: nat)
    requires a <= b
    ensures m * a <= m * b
    decreases b - a
  {
    if a < b {
      MulMonotone(m, a, b - 1);
      assert m * b == m * (b - 1) + m;
    }
  }

  lemma {:induction false} SameValueSame(a: seq<byte>, b: seq<byte>)
    requires |a| == |b| && ValueOf(a) == ValueOf(b)
    ensures a == b
  {
    if a != [] {
      var n := |a| - 1;
      SameValueSame(a[..n], b[..n]);
      assert a == a[..n] + [a[n]] && b == b[..n] + [b[n]];
    }
  }

  /** Two numbers share their low `n` bytes exactly when they agree modulo 256^n. */
  lemma FixedSameIff(x: nat, y: nat, n: nat)
    ensures Fixed(x, n) == Fixed(y, n) <==> x % Pow256(n) == y % Pow256(n)
  {
    FixedIsRemainder(x, n);
    FixedIsRemainder(y, n);
    if x % Pow256(n) == y % Pow256(n) {
      SameValueSame(Fixed(x, n), Fixed(y, n));
    }
  }

  lemma FixedSame(x: nat, y: nat, n: nat)
    requires x < Pow256(n) && y < Pow256(n) && Fixed(x, n) == Fixed(y, n)
    ensures x == y
  {
    FixedValue(x, n);
    FixedValue(y, n);
  }

  /** The loop that drops leading zero bytes in `rlp_uint` and `length_bytes`. */
  method StripZeros(b: seq<byte>) returns (r: seq<byte>)
    ensures r == Minimal(ValueOf(b))
  {
    r := b;
    while r != [] && r[0] == 0
      invariant ValueOf(r) == ValueOf(b)
      decreases |r|
    {
      assert r == [0] + r[1..];
      LeadingZero(r[1..]);
      r := r[1..];
    }
    StrippedIsMinimal(r);
  }
}
