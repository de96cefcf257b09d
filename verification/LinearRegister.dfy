/**
 Shift registers over any xor group: what follows from a linear, injective bit
 step alone. Crc32 supplies the concrete 32-bit register.
 */
module LinearRegister {

  datatype Algebra<!T> = Algebra(zero: T, xor: (T, T) -> T, step: T -> T)

  ghost predicate RegroupsAt<T>(g: Algebra<T>, a: T, b: T, c: T, d: T) {
    g.xor(g.xor(a, b), g.xor(c, d)) == g.xor(g.xor(a, c), g.xor(b, d))
  }

  ghost predicate LinearAt<T>(g: Algebra<T>, a: T, b: T) {
    g.step(g.xor(a, b)) == g.xor(g.step(a), g.step(b))
  }

  ghost predicate Regroups<T(!new)>(g: Algebra<T>) {
    forall a, b, c, d :: RegroupsAt(g, a, b, c, d)
  }

  ghost predicate Linear<T(!new)>(g: Algebra<T>) {
    forall a, b :: LinearAt(g, a, b)
  }

  ghost predicate XorTellsApart<T(!new)>(g: Algebra<T>) {
    && (forall a :: g.xor(a, a) == g.zero)
    && (forall a, b :: g.xor(a, b) == g.zero ==> a == b)
  }

  ghost predicate StepTellsApart<T(!new)>(g: Algebra<T>) {
    forall a, b :: g.step(a) == g.step(b) ==> a == b
  }

  ghost predicate Lawful<T(!new)>(g: Algebra<T>) {
    Regroups(g) && Linear(g) && XorTellsApart(g) && StepTellsApart(g)
  }

  function Steps<T>(g: Algebra<T>, c: T, n: nat): T {
    if n == 0 then c else g.step(Steps(g, c, n - 1))
  }

  /** The register after feeding `input`, each symbol followed by eight bit steps. */
  function Register<T>(g: Algebra<T>, r: T, input: seq<T>): T {
    if input == [] then r
    else Steps(g, g.xor(Register(g, r, input[..|input| - 1]), input[|input| - 1]), 8)
  }

  function XorAll<T>(g: Algebra<T>, x: seq<T>, y: seq<T>): (r: seq<T>)
    requires |x| == |y|
    ensures |r| == |x| && forall i :: 0 <= i < |x| ==> r[i] == g.xor(x[i], y[i])
  {
    seq(|x|, i requires 0 <= i < |x| => g.xor(x[i], y[i]))
  }

  lemma {:induction false} StepsLinear<T(!new)>(g: Algebra<T>, a: T, b: T, n: nat)
    requires Lawful(g)
    ensures Steps(g, g.xor(a, b), n) == g.xor(Steps(g, a, n), Steps(g, b, n))
  {
    if n > 0 {
      StepsLinear(g, a, b, n - 1);
      assert LinearAt(g, Steps(g, a, n - 1), Steps(g, b, n - 1));
    }
  }

  lemma {:induction false} StepsInjective<T(!new)>(g: Algebra<T>, a: T, b: T, n: nat)
    requires Lawful(g) && Steps(g, a, n) == Steps(g, b, n)
    ensures a == b
  {
    if n > 0 {
      StepsInjective(g, a, b, n - 1);
    }
  }

  lemma {:induction false} StepsZero<T(!new)>(g: Algebra<T>, n: nat)
    requires Lawful(g)
    ensures Steps(g, g.zero, n) == g.zero
  {
    StepsLinear(g, g.zero, g.zero, n);
    assert g.xor(g.zero, g.zero) == g.zero;
  }

  lemma RegisterAppend<T>(g: Algebra<T>, r: T, input: seq<T>, x: T)
    ensures Register(g, r, input + [x]) == Steps(g, g.xor(Register(g, r, input), x), 8)
  {
    assert (input + [x])[..|input|] == input;
  }

  /** The register is linear in its start and its input together. */
  lemma {:induction false} RegisterLinear<T(!new)>(g: Algebra<T>, r: T, s: T, x: seq<T>, y: seq<T>)
    requires Lawful(g) && |x| == |y|
    ensures Register(g, g.xor(r, s), XorAll(g, x, y)) == g.xor(Register(g, r, x), Register(g, s, y))
    decreases |x|
  {
    if x != [] {
      var n := |x| - 1;
      RegisterLinear(g, r, s, x[..n], y[..n]);
      assert XorAll(g, x, y)[..n] == XorAll(g, x[..n], y[..n]);
      var a, b := Register(g, r, x[..n]), Register(g, s, y[..n]);
      StepsLinear(g, g.xor(a, x[n]), g.xor(b, y[n]), 8);
      assert RegroupsAt(g, a, b, x[n], y[n]);
    }
  }

  /** Two inputs of one length leave the same register exactly when their difference leaves a zero one. */
  lemma SameRegisterIff<T(!new)>(g: Algebra<T>, r: T, x: seq<T>, y: seq<T>)
    requires Lawful(g) && |x| == |y|
    ensures Register(g, r, x) == Register(g, r, y) <==> Register(g, g.zero, XorAll(g, x, y)) == g.zero
  {
    RegisterLinear(g, r, r, x, y);
    assert g.xor(r, r) == g.zero;
  }

  ghost predicate AllZero<T>(g: Algebra<T>, x: seq<T>) {
    forall i :: 0 <= i < |x| ==> x[i] == g.zero
  }

  /** Feeding zeros keeps a zero register zero and a non-zero one non-zero. */
  lemma {:induction false} ZerosKeep<T(!new)>(g: Algebra<T>, r: T, zeros: seq<T>)
    requires Lawful(g) && AllZero(g, zeros)
    ensures Register(g, r, zeros) == g.zero <==> r == g.zero
    decreases |zeros|
  {
    if zeros != [] {
      var n := |zeros| - 1;
      ZerosKeep(g, r, zeros[..n]);
      ZeroFeed(g, Register(g, r, zeros[..n]));
    }
  }

  lemma ZeroFeed<T(!new)>(g: Algebra<T>, a: T)
    requires Lawful(g)
    ensures Steps(g, g.xor(a, g.zero), 8) == g.zero <==> a == g.zero
  {
    StepsZero(g, 8);
    if Steps(g, g.xor(a, g.zero), 8) == g.zero {
      StepsInjective(g, g.xor(a, g.zero), g.zero, 8);
    }
    assert g.xor(g.zero, g.zero) == g.zero;
  }

  lemma {:induction false} RegisterConcat<T>(g: Algebra<T>, r: T, x: seq<T>, y: seq<T>)
    ensures Register(g, r, x + y) == Register(g, Register(g, r, x), y)
    decreases |y|
  {
    if y == [] {
      assert x + y == x;
    } else {
      var n := |y| - 1;
      RegisterConcat(g, r, x, y[..n]);
      assert x + y == (x + y[..n]) + [y[n]] && y == y[..n] + [y[n]];
      RegisterAppend(g, r, x + y[..n], y[n]);
      RegisterAppend(g, Register(g, r, x), y[..n], y[n]);
    }
  }

  /** An error pattern that is zero outside its middle is missed exactly when the middle alone is. */
  lemma OnlyTheMiddleMatters<T(!new)>(g: Algebra<T>, before: seq<T>, middle: seq<T>, after: seq<T>)
    requires Lawful(g) && AllZero(g, before) && AllZero(g, after)
    ensures Register(g, g.zero, before + middle + after) == g.zero <==> Register(g, g.zero, middle) == g.zero
  {
    RegisterConcat(g, g.zero, before + middle, after);
    RegisterConcat(g, g.zero, before, middle);
    ZerosKeep(g, g.zero, before);
    ZerosKeep(g, Register(g, g.zero, middle), after);
  }
}
