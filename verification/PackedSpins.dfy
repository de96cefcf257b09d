/**
 Spins packed one bit a site, as src/bin/bio_quantum_record.rs keeps them. A
 64-bit word is written as its bits, least significant first.
 */
module PackedSpins {

  type Word = bits: seq<bool> | |bits| == 64 witness seq(64, _ => false)

  const EMPTY: Word := seq(64, _ => false)

  predicate Bit(packed: seq<Word>, i: nat)
    requires i / 64 < |packed|
  {
    packed[i / 64][i % 64]
  }

  /** One word per 64 sites, and bit `i` set exactly where spin `i` is up. */
  ghost predicate Mirrors(packed: seq<Word>, s: seq<int>) {
    |packed| == (|s| + 63) / 64 && forall i: nat :: i < |s| ==> (Bit(packed, i) <==> s[i] > 0)
  }

  /** `packed[i >> 6] |= 1 << (i & 63)`. */
  function Set(packed: seq<Word>, i: nat): seq<Word>
    requires i / 64 < |packed|
  {
    packed[i / 64 := packed[i / 64][i % 64 := true]]
  }

  /** `packed[i >> 6] ^= 1 << (i & 63)`. */
  function Toggle(packed: seq<Word>, i: nat): seq<Word>
    requires i / 64 < |packed|
  {
    packed[i / 64 := packed[i / 64][i % 64 := !packed[i / 64][i % 64]]]
  }

  /** Either write moves its own site's bit and leaves every other site alone. */
  lemma WordWrite(packed: seq<Word>, i: nat, j: nat)
    requires i / 64 < |packed| && j / 64 < |packed|
    ensures Bit(Set(packed, i), j) <==> i == j || Bit(packed, j)
    ensures Bit(Toggle(packed, i), j) <==> (if i == j then !Bit(packed, j) else Bit(packed, j))
  {
    if i != j && i / 64 == j / 64 {
      SameWord(i, j);
    }
  }

  lemma SameWord(i: nat, j: nat)
    requires i / 64 == j / 64 && i != j
    ensures i % 64 != j % 64
  {
  }

  /** `pack_spins`. */
  method PackSpins(s: seq<int>) returns (packed: seq<Word>)
    ensures Mirrors(packed, s)
  {
    packed := seq((|s| + 63) / 64, _ => EMPTY);
    for i := 0 to |s|
      invariant |packed| == (|s| + 63) / 64
      invariant forall j: nat :: j < i ==> (Bit(packed, j) <==> s[j] > 0)
      invariant forall j: nat :: i <= j < |s| ==> !Bit(packed, j)
    {
      if s[i] > 0 {
        forall j: nat | j < |s|
          ensures Bit(Set(packed, i), j) <==> i == j || Bit(packed, j)
        {
          WordWrite(packed, i, j);
        }
        packed := Set(packed, i);
      }
    }
  }

  /** Toggling a site's bit follows the negation of its spin. */
  lemma ToggleMirrors(packed: seq<Word>, s: seq<int>, i: nat)
    requires Mirrors(packed, s) && i < |s| && s[i] != 0
    ensures Mirrors(Toggle(packed, i), s[i := -s[i]])
  {
    forall j: nat | j < |s|
      ensures Bit(Toggle(packed, i), j) <==> s[i := -s[i]][j] > 0
    {
      WordWrite(packed, i, j);
    }
  }
}
