/**
 Reversing the bits of a word, as the CRC set-up does with its generator, and why
 the reversed generator is the constant of the register.
 */
module Reflection {
  /** The generator of section 12.1 of RFC 3720, and the same bits in reverse. */
  const GENERATOR: bv32 := 0x1edc6f41
  const POLYNOMIAL: bv32 := 0x82f63b78

  function BitAt(v: bv32, j: bv32): bool
    requires j < 32
  {
    (v >> j) & 1 == 1
  }

  /** Bits 0 to i of r are the top bits of the low n bits of v, in reverse; the others are 0. */
  ghost predicate Reversed(r: bv32, v: bv32, n: bv32, i: bv32)
    requires i <= n <= 32
  {
    forall j: bv32 | j < 32 :: BitAt(r, j) == MirrorBit(v, n, i, j)
  }

  function MirrorBit(v: bv32, n: bv32, i: bv32, j: bv32): bool
    requires i <= n <= 32 && j < 32
  {
    j < i && BitAt(v, n - 1 - j)
  }

  function WithBit(r: bv32, v: bv32, n: bv32, i: bv32): bv32
    requires i < n <= 32
  {
    r | (((v >> (n - 1 - i)) & 1) << i)
  }

  lemma NewBit(r: bv32, v: bv32, n: bv32, i: bv32)
    requires i < n <= 32 && !BitAt(r, i)
    ensures BitAt(WithBit(r, v, n, i), i) == BitAt(v, n - 1 - i)
  {
  }

  lemma OldBit(r: bv32, v: bv32, n: bv32, i: bv32, j: bv32)
    requires i < n <= 32 && j < 32 && i != j
    ensures BitAt(WithBit(r, v, n, i), j) == BitAt(r, j)
  {
  }

  lemma MirrorNext(v: bv32, n: bv32, i: bv32, j: bv32)
    requires i < n <= 32 && j < 32
    ensures i + 1 <= n && MirrorBit(v, n, i + 1, j) == if i == j then BitAt(v, n - 1 - i) else MirrorBit(v, n, i, j)
    ensures !MirrorBit(v, n, i, i)
  {
    hide BitAt;
  }

  lemma ReversedStep(r: bv32, v: bv32, n: bv32, i: bv32)
    requires i < n <= 32 && Reversed(r, v, n, i)
    ensures i + 1 <= n && Reversed(WithBit(r, v, n, i), v, n, i + 1)
  {
    hide BitAt, WithBit, MirrorBit;
    MirrorNext(v, n, i, i);
    NewBit(r, v, n, i);
    forall j: bv32 | j < 32 ensures BitAt(WithBit(r, v, n, i), j) == MirrorBit(v, n, i + 1, j) {
      MirrorNext(v, n, i, j);
      if j != i {
        OldBit(r, v, n, i, j);
      }
    }
  }

  lemma ReversedNone(v: bv32, n: bv32)
    requires n <= 32
    ensures Reversed(0, v, n, 0)
  {
    forall j: bv32 | j < 32 ensures !BitAt(0, j) && !MirrorBit(v, n, 0, j) {
    }
  }

  /** istgt_reflect */
  method Reflect(val: bv32, bits: bv32) returns (r: bv32)
    ensures bits < 1 || bits > 32 ==> r == 0
    ensures 1 <= bits <= 32 ==> Reversed(r, val, bits, bits)
  {
    hide Reversed, WithBit;
    if bits < 1 || bits > 32 {
      return 0;
    }
    r := 0;
    var i: bv32 := 0;
    ReversedNone(val, bits);
    while i < bits
      invariant i <= bits && Reversed(r, val, bits, i)
      decreases bits - i
    {
      ReversedStep(r, val, bits, i);
      r := WithBit(r, val, bits, i);
      i := i + 1;
    }
  }

  lemma PolynomialBits(j: bv32)
    requires j < 32
    ensures BitAt(POLYNOMIAL, j) == MirrorBit(GENERATOR, 32, 32, j)
  {
  }

  lemma PolynomialReversed()
    ensures Reversed(POLYNOMIAL, GENERATOR, 32, 32)
  {
    hide BitAt, MirrorBit;
    forall j: bv32 | j < 32 ensures BitAt(POLYNOMIAL, j) == MirrorBit(GENERATOR, 32, 32, j) {
      PolynomialBits(j);
    }
  }

  function Above(x: bv32, j: bv32): bv32
    requires j < 32
  {
    x >> j
  }

  lemma NextAbove(x: bv32, j: bv32)
    requires j < 32 && Above(x, j) != 0 && !BitAt(x, j)
    ensures j < 31 && j < j + 1 < 32 && Above(x, j + 1) != 0 && 32 - (j + 1) < 32 - j
  {
  }

  /** A word that is not 0 has a bit set. */
  lemma {:induction false} SomeBit(x: bv32, j: bv32) returns (k: bv32)
    requires j < 32 && Above(x, j) != 0
    ensures k < 32 && BitAt(x, k)
    decreases 32 - j
  {
    hide Above, BitAt;
    k := j;
    if !BitAt(x, j) {
      NextAbove(x, j);
      k := SomeBit(x, j + 1);
    }
  }

  lemma BitXor(a: bv32, b: bv32, k: bv32)
    requires k < 32
    ensures BitAt(a ^ b, k) == (BitAt(a, k) != BitAt(b, k))
  {
  }

  lemma NonZero(a: bv32, b: bv32)
    requires a != b
    ensures Above(a ^ b, 0) != 0
  {
  }

  /** A word is determined by its bits, so the reversal is too. */
  lemma ReversedUnique(a: bv32, b: bv32, v: bv32, n: bv32)
    requires n <= 32 && Reversed(a, v, n, n) && Reversed(b, v, n, n)
    ensures a == b
  {
    hide BitAt, MirrorBit, Above;
    if a != b {
      NonZero(a, b);
      var k := SomeBit(a ^ b, 0);
      BitXor(a, b, k);
      assert false;
    }
  }

  /** The call that sets up the register. */
  method ReflectPolynomial() returns (r: bv32)
    ensures r == POLYNOMIAL
  {
    hide Reversed;
    r := Reflect(GENERATOR, 32);
    PolynomialReversed();
    ReversedUnique(r, POLYNOMIAL, GENERATOR, 32);
  }
}
